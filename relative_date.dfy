/** The day-granularity label of `formatDate`: the difference in calendar days
    between now and the event, both in the configured time zone, is named
    "Today", "Yesterday" or "N days ago" up to a week back; any other difference,
    a future one included, is shown as an absolute date. Computing the
    difference and formatting the absolute date are host-library work and are
    inputs here. */
module RelativeDate {
  import opened Wrappers
  import opened JsString

  const Suffix := " days ago"

  /** The label for a difference of `diffDays` days; `absolute` is the
      locale-formatted date of the event. */
  function DayLabel(diffDays: int, absolute: string): string {
    if diffDays == 0 then "Today"
    else if diffDays == 1 then "Yesterday"
    else if 1 < diffDays <= 7 then NatToString(diffDays) + Suffix
    else absolute
  }

  /** Reads a relative label back as the day difference it names; an absolute
      date is not relative and reads as None. A numeral is read only in the
      form the label prints it, without leading zeros. */
  function ParseDayLabel(text: string): Option<int> {
    if text == "Today" then Some(0)
    else if text == "Yesterday" then Some(1)
    else if EndsWith(text, Suffix) then
      var digits := text[..|text| - |Suffix|];
      match ParseNat(digits)
      case Some(n) => if 1 < n <= 7 && NatToString(n) == digits then Some(n) else None
      case None => None
    else None
  }

  /** Every difference from 0 to 7 days gets a relative label that names it:
      reading the label back gives the difference. */
  lemma RelativeLabelRoundTrip(diffDays: int, absolute: string)
    requires 0 <= diffDays <= 7
    ensures ParseDayLabel(DayLabel(diffDays, absolute)) == Some(diffDays)
  {
    if diffDays > 1 {
      var text := DayLabel(diffDays, absolute);
      var digits := NatToString(diffDays);
      ParseNatToString(diffDays);
      assert text == digits + Suffix;
      assert text[..|text| - |Suffix|] == digits;
      assert text != "Today" && text != "Yesterday" by {
        assert IsDigit(text[0]);
      }
    }
  }

  /** Conversely, every text that reads as a difference is exactly the label
      of that difference, so labels and differences within the week are in
      one-to-one correspondence. */
  lemma ParseDayLabelExact(text: string, absolute: string)
    requires ParseDayLabel(text).Some?
    ensures 0 <= ParseDayLabel(text).value <= 7
    ensures DayLabel(ParseDayLabel(text).value, absolute) == text
  {
    if text != "Today" && text != "Yesterday" {
      var digits := text[..|text| - |Suffix|];
      assert text == digits + Suffix;
    }
  }

  /** Any other difference, negative (an event in the future) or more than a
      week back, is shown as the absolute date. */
  lemma OtherDifferencesAreAbsolute(diffDays: int, absolute: string)
    requires diffDays < 0 || diffDays > 7
    ensures DayLabel(diffDays, absolute) == absolute
  {
  }

  /** Two differences within the week never share a label. */
  lemma RelativeLabelsDistinct(d1: int, d2: int, absolute: string)
    requires 0 <= d1 <= 7 && 0 <= d2 <= 7
    requires DayLabel(d1, absolute) == DayLabel(d2, absolute)
    ensures d1 == d2
  {
    RelativeLabelRoundTrip(d1, absolute);
    RelativeLabelRoundTrip(d2, absolute);
  }

  /** Three days back reads "3 days ago"; ten days back reads as the
      absolute date. */
  lemma DayLabelExamples(absolute: string)
    ensures DayLabel(3, absolute) == "3 days ago"
    ensures DayLabel(10, absolute) == absolute
  {
  }
}
