/**
 * Slot labels: the text `"HH:00"` that both slot generators build from an
 * hour with `hour.toString().padStart(2, "0") + ":00"`, the hour such a text
 * names, and what it means for a list of labels to be in ascending order.
 */
module Slots {
  import opened JsString

  /** The label of a whole hour below 100: its two digits, zero-padded, then ":00". */
  function Label(hour: nat): (text: string)
    requires hour < 100
    ensures HourOf(text) == hour
  {
    [DigitChar(hour / 10), DigitChar(hour % 10), ':', '0', '0']
  }

  /** The label is what `hour.toString().padStart(2, "0") + ":00"` builds. */
  lemma LabelIsPadded(hour: nat)
    requires hour < 100
    ensures PadStart(NumberToString(hour), 2, '0') + ":00" == Label(hour)
  {
    var digits := NumberToString(hour);
    TwoDigitNumberToString(hour);
    if hour < 10 {
      assert PadStart(digits, 2, '0') == PadStart(['0'] + digits, 2, '0') == ['0'] + digits;
      assert DigitChar(hour / 10) == '0';
    } else {
      assert PadStart(digits, 2, '0') == digits;
    }
  }

  /** Builds the label of `hour` the way both generators do, `hour.toString().padStart(2, "0") + ":00"`. */
  method FormatHour(hour: nat) returns (text: string)
    requires hour < 100
    ensures text == Label(hour)
  {
    text := PadStart(NumberToString(hour), 2, '0') + ":00";
    LabelIsPadded(hour);
  }

  /** The hour a text `"HH:00"` names, or -1 for any other text. */
  function HourOf(text: string): int {
    if |text| == 5 && IsDigit(text[0]) && IsDigit(text[1]) && text[2..] == ":00"
    then 10 * DigitValue(text[0]) + DigitValue(text[1])
    else -1
  }

  /** Every text that names an hour is that hour's label: labels and hours are in one-to-one correspondence. */
  lemma LabelOfHourOf(text: string)
    requires HourOf(text) >= 0
    ensures HourOf(text) < 100 && Label(HourOf(text)) == text
  {
    var h := HourOf(text);
    assert h / 10 == DigitValue(text[0]) && h % 10 == DigitValue(text[1]);
    assert text == [text[0], text[1]] + text[2..];
  }

  /** Slots strictly ascending by the hour they name (hence free of duplicates). */
  predicate StrictlyAscending(slots: seq<string>) {
    forall i, j :: 0 <= i < j < |slots| ==> HourOf(slots[i]) < HourOf(slots[j])
  }

  /** A text naming an hour below every hour of an ascending list keeps it ascending in front. */
  lemma AscendingCons(text: string, slots: seq<string>)
    requires StrictlyAscending(slots)
    requires forall s :: s in slots ==> HourOf(text) < HourOf(s)
    ensures StrictlyAscending([text] + slots)
  {
    var all := [text] + slots;
    forall i, j | 0 <= i < j < |all|
      ensures HourOf(all[i]) < HourOf(all[j])
    {
      assert all[j] == slots[j - 1] && all[j] in slots;
      if i > 0 {
        assert all[i] == slots[i - 1];
      }
    }
  }

  /** Slot i is the label of hour `first + i`. */
  predicate LabelsFrom(slots: seq<string>, first: nat) {
    (slots == [] || first + |slots| <= 100) && forall i :: 0 <= i < |slots| ==> slots[i] == Label(first + i)
  }

  /** The labels of the hours `first` to `last`, in order. */
  function HourLabels(first: nat, last: nat): (slots: seq<string>)
    requires last < 100
    ensures |slots| == if first <= last then last - first + 1 else 0
    ensures LabelsFrom(slots, first)
    ensures StrictlyAscending(slots)
    decreases last + 1 - first
  {
    if first > last then []
    else
      var rest := HourLabels(first + 1, last);
      LabelsCons(first, rest);
      [Label(first)] + rest
  }

  /** Putting the label of `first` in front of the ascending labels from `first + 1` on keeps both properties. */
  lemma LabelsCons(first: nat, rest: seq<string>)
    requires first < 100 && LabelsFrom(rest, first + 1) && StrictlyAscending(rest)
    ensures LabelsFrom([Label(first)] + rest, first)
    ensures StrictlyAscending([Label(first)] + rest)
  {
    var all := [Label(first)] + rest;
    forall i | 0 <= i < |all|
      ensures all[i] == Label(first + i)
    {
      if i > 0 {
        assert all[i] == rest[i - 1];
      }
    }
    forall t | t in rest
      ensures HourOf(Label(first)) < HourOf(t)
    {
      var i :| 0 <= i < |rest| && rest[i] == t;
      assert t == Label(first + 1 + i);
    }
    AscendingCons(Label(first), rest);
  }

  /** Extending the range by one hour appends that hour's label. */
  lemma HourLabelsSnoc(first: nat, last: nat)
    requires last + 1 < 100 && first <= last + 1
    ensures HourLabels(first, last + 1) == HourLabels(first, last) + [Label(last + 1)]
  {
    var longer, shorter := HourLabels(first, last + 1), HourLabels(first, last);
    var extended := shorter + [Label(last + 1)];
    assert |longer| == |extended|;
    forall i | 0 <= i < |longer|
      ensures longer[i] == extended[i]
    {
      if i < |shorter| {
        assert extended[i] == shorter[i];
      }
    }
  }
}
