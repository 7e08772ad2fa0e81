/** The presentation screen (src/components/presentation-view.tsx): one details card per
    exam showing its start, finish and, with extra time, final finish as `HH:MM`, laid out
    in one or two columns, and left with the Escape key or the exit button. */
module PresentationView {
  import opened ExamTypes
  import opened Text
  import opened TimePattern
  import opened LocalTime

  /** `parseTimeToDate`: split at the colon, read both pieces as numbers, and set them as
      the hour and minute of `now` (the fresh `new Date()`), zeroing seconds and
      milliseconds. */
  function ParseTimeToDate(timeString: string, now: Instant): (date: Instant)
    requires IsTimeString(timeString)
    ensures Day(date) == Day(now)
    ensures Hours(date) == HourOf(timeString) && Minutes(date) == MinuteOf(timeString)
    ensures Seconds(date) == 0 && Millis(date) == 0
    ensures MinuteOfDay(date) == HourOf(timeString) * 60 + MinuteOf(timeString)
  {
    SplitTimeString(timeString);
    var parts := Split(timeString, ':');
    var hours, minutes := DecimalValue(parts[0]), DecimalValue(parts[1]);
    assert hours == HourOf(timeString) && minutes == MinuteOf(timeString);
    FieldsOfInstant(Day(now), hours, minutes, 0, 0);
    SetHours(now, hours, minutes, 0, 0)
  }

  /** Minutes since midnight denoted by a matching time string. */
  function MinuteOfDayOf(timeString: string): (n: nat)
    requires IsTimeString(timeString)
    ensures n < MinutesPerDay
  {
    HourOf(timeString) * 60 + MinuteOf(timeString)
  }

  /** For a valid string the parse is `h*60 + m` minutes after the local midnight of `now`. */
  lemma ParseIsMinuteOfDay(timeString: string, now: Instant)
    requires IsTimeString(timeString)
    ensures ParseTimeToDate(timeString, now) == Day(now) * DayMs + MinuteOfDayOf(timeString) * MinuteMs
  {
  }

  datatype ExamTimes = ExamTimes(start: Instant, finish: Instant, finalFinish: Instant)

  predicate HasValidTimes(exam: ExamData) {
    IsTimeString(exam.startTime) && IsTimeString(exam.endTime)
  }

  /** The start, finish and final finish the details card derives: the final finish is a
      copy of the finish moved on by `extraTime || 0` minutes with `setMinutes`. */
  function ComputeExamTimes(exam: ExamData, now: Instant): (t: ExamTimes)
    requires HasValidTimes(exam)
    ensures t.start == ParseTimeToDate(exam.startTime, now)
    ensures t.finish == ParseTimeToDate(exam.endTime, now)
    ensures t.finalFinish == t.finish + exam.extraTime * MinuteMs
  {
    var start := ParseTimeToDate(exam.startTime, now);
    var end := ParseTimeToDate(exam.endTime, now);
    // `extraTime || 0` replaces only a falsy value, and the one falsy integer is 0 itself
    SetMinutesAdds(end, exam.extraTime);
    ExamTimes(start, end, SetMinutes(end, Minutes(end) + exam.extraTime))
  }

  /** `formatTime`: the hour and minute of the local time, two digits each, 24-hour. */
  function FormatTime(date: Instant): (s: string)
    ensures |s| == 5 && s[2] == ':'
    ensures IsTimeString(s) && HourOf(s) == Hours(date) && MinuteOf(s) == Minutes(date)
  {
    ClockTextMatches(Hours(date), Minutes(date));
    ClockText(Hours(date), Minutes(date))
  }

  /** The `HH:MM` text of a minute of the day. */
  function MinuteOfDayText(n: nat): string
    requires n < MinutesPerDay
  {
    ClockText(n / 60, n % 60)
  }

  /** What one details card shows; the extra-time row is present or absent. */
  datatype DetailsCard = DetailsCard(
    componentTitle: string,
    qualification: string,
    componentCode: string,
    centreNumber: string,
    startTime: string,
    finishTime: string,
    extraTimeRow: Option<string>)

  /** `ExamDetailsCard`: the exam's texts, its start and finish, and the final finish in
      an extra-time row shown only when `extraTime > 0`. */
  function ExamDetailsCard(exam: ExamData, now: Instant): (card: DetailsCard)
    requires HasValidTimes(exam)
    ensures card.componentTitle == exam.componentTitle && card.qualification == exam.qualification
    ensures card.componentCode == exam.componentCode && card.centreNumber == exam.centreNumber
    ensures IsTimeString(card.startTime) && IsTimeString(card.finishTime)
    ensures card.extraTimeRow.Some? <==> exam.extraTime > 0
  {
    var times := ComputeExamTimes(exam, now);
    DetailsCard(
      exam.componentTitle, exam.qualification, exam.componentCode, exam.centreNumber,
      FormatTime(times.start), FormatTime(times.finish),
      if exam.extraTime > 0 then Some(FormatTime(times.finalFinish)) else None)
  }

  /** What the screen shows: the grid's column class and the cards in order. */
  datatype Screen = Screen(gridColsClass: string, cards: seq<DetailsCard>)

  /** `gridColsClass`: two columns for more than one exam, else one. */
  function GridColsClass(examCount: nat): (cls: string)
    ensures ColumnCount(cls) == if examCount > 1 then 2 else 1
  {
    if examCount > 1 then "md:grid-cols-2" else "md:grid-cols-1"
  }

  /** The number of columns a grid class lays out. */
  function ColumnCount(gridColsClass: string): nat {
    if gridColsClass == "md:grid-cols-2" then 2 else if gridColsClass == "md:grid-cols-1" then 1 else 0
  }

  predicate AllHaveValidTimes(data: PresentationData) {
    forall i :: 0 <= i < |data| ==> HasValidTimes(data[i])
  }

  /** The presentation screen: `data.map` to one card per exam, in the grid class. */
  function RenderPresentation(data: PresentationData, now: Instant): (screen: Screen)
    requires AllHaveValidTimes(data)
    ensures |screen.cards| == |data|
    ensures forall i :: 0 <= i < |data| ==> screen.cards[i].componentTitle == data[i].componentTitle
    ensures ColumnCount(screen.gridColsClass) == if |data| > 1 then 2 else 1
  {
    Screen(GridColsClass(|data|), seq(|data|, i requires 0 <= i < |data| => ExamDetailsCard(data[i], now)))
  }

  /** What the user can do on the screen. */
  datatype UserInput = KeyDown(key: string) | ExitButtonClick

  /** Whether the input calls `onExit`: the keydown listener and the exit button. */
  function CallsOnExit(input: UserInput): (exits: bool)
    ensures exits <==> input == ExitButtonClick || input == KeyDown("Escape")
  {
    match input
    case KeyDown(key) => key == "Escape"
    case ExitButtonClick => true
  }

  // ---- Properties -------------------------------------------------------------------

  /** Parsing a valid string gives a time of today, whole minutes, within the day. */
  lemma ParsedTimeInDay(timeString: string, now: Instant)
    requires IsTimeString(timeString)
    ensures var d := ParseTimeToDate(timeString, now);
      Day(now) * DayMs <= d < (Day(now) + 1) * DayMs && (d - Day(now) * DayMs) % MinuteMs == 0
  {
    var n := MinuteOfDayOf(timeString);
    ParseIsMinuteOfDay(timeString, now);
    assert ParseTimeToDate(timeString, now) - Day(now) * DayMs == n * MinuteMs;
    DivModUnique(n * MinuteMs, MinuteMs, n, 0);
  }

  /** Formatting the parse of a string gives the string back when its hour has two digits,
      and the zero-padded form when it has one. */
  lemma {:induction false} FormatParseRoundTrip(timeString: string, now: Instant)
    requires IsTimeString(timeString)
    ensures FormatTime(ParseTimeToDate(timeString, now)) ==
      if |timeString| == 5 then timeString else "0" + timeString
  {
    TimeStringShape(timeString);
  }

  lemma SingleDigitHourPadded(now: Instant)
    ensures IsTimeString("9:05")
    ensures FormatTime(ParseTimeToDate("9:05", now)) == "09:05"
  {
    assert "9:05" == [DigitChar(9)] + ":" + Pad2(5);
    ShortClockTextMatches(9, 5);
    FormatParseRoundTrip("9:05", now);
  }

  /** Parsing what was formatted keeps the hour and minute, on the day of `now`. */
  lemma {:induction false} ParseFormatRoundTrip(date: Instant, now: Instant)
    ensures ParseTimeToDate(FormatTime(date), now) == MakeInstant(Day(now), Hours(date), Minutes(date), 0, 0)
  {
    ParseIsMinuteOfDay(FormatTime(date), now);
  }

  /** Extra time never brings the final finish before the finish, and leaves it equal to
      the finish exactly when there is none. */
  lemma FinalFinishNotEarlier(exam: ExamData, now: Instant)
    requires HasValidTimes(exam) && exam.extraTime >= 0
    ensures var t := ComputeExamTimes(exam, now);
      t.finalFinish >= t.finish && (t.finalFinish == t.finish <==> exam.extraTime == 0)
  {
  }

  /** More extra time never gives an earlier final finish. */
  lemma FinalFinishMonotone(exam: ExamData, more: int, now: Instant)
    requires HasValidTimes(exam) && exam.extraTime <= more
    ensures ComputeExamTimes(exam, now).finalFinish <= ComputeExamTimes(exam.(extraTime := more), now).finalFinish
  {
  }

  /** Start and finish are each read from their own field: changing one leaves the other,
      and no order between them is demanded. */
  lemma TimesIndependent(exam: ExamData, other: string, now: Instant)
    requires HasValidTimes(exam) && IsTimeString(other)
    ensures ComputeExamTimes(exam.(endTime := other), now).start == ComputeExamTimes(exam, now).start
    ensures ComputeExamTimes(exam.(startTime := other), now).finish == ComputeExamTimes(exam, now).finish
  {
  }

  /** Extra time that runs past midnight rolls into the following days: the final finish
      lies `(end + extra) div 1440` days on, at minute `(end + extra) mod 1440`, and that is
      the time the card shows. */
  lemma {:induction false} FinalFinishWrapsMidnight(exam: ExamData, now: Instant)
    requires HasValidTimes(exam) && exam.extraTime >= 0
    ensures var t := ComputeExamTimes(exam, now);
      var total := MinuteOfDayOf(exam.endTime) + exam.extraTime;
      Day(t.finalFinish) == Day(now) + total / MinutesPerDay &&
      MinuteOfDay(t.finalFinish) == total % MinutesPerDay &&
      FormatTime(t.finalFinish) == MinuteOfDayText(total % MinutesPerDay)
  {
    var t := ComputeExamTimes(exam, now);
    var total := MinuteOfDayOf(exam.endTime) + exam.extraTime;
    var q, r := total / MinutesPerDay, total % MinutesPerDay;
    ParseIsMinuteOfDay(exam.endTime, now);
    assert t.finalFinish == Day(now) * DayMs + total * MinuteMs;
    assert total * MinuteMs == q * DayMs + r * MinuteMs;
    assert r * MinuteMs == (r / 60) * HourMs + (r % 60) * MinuteMs;
    assert t.finalFinish == MakeInstant(Day(now) + q, r / 60, r % 60, 0, 0);
    FieldsOfInstant(Day(now) + q, r / 60, r % 60, 0, 0);
    assert Hours(t.finalFinish) == r / 60 && Minutes(t.finalFinish) == r % 60;
    assert FormatTime(t.finalFinish) == ClockText(r / 60, r % 60);
  }

  /** An exam finishing at 23:30 with 45 minutes' extra time has its final finish shown
      as 00:15. */
  lemma MidnightExample(exam: ExamData, now: Instant)
    requires IsTimeString(exam.startTime) && exam.endTime == "23:30" && exam.extraTime == 45
    ensures HasValidTimes(exam) && ExamDetailsCard(exam, now).extraTimeRow == Some("00:15")
  {
    assert IsTimeString("23:30") && MinuteOfDayOf("23:30") == 1410;
    assert MinuteOfDayText(15) == "00:15" by {
      assert Pad2(0) == "00" && Pad2(15) == "15";
    }
    assert (MinuteOfDayOf(exam.endTime) + exam.extraTime) % MinutesPerDay == 15;
    CardContents(exam, now);
  }

  /** The card shows the exam's texts; its start and finish are the normalised input times
      whatever their order; the extra-time row appears exactly when `extraTime > 0`, and
      then shows the final finish. */
  lemma {:induction false} CardContents(exam: ExamData, now: Instant)
    requires HasValidTimes(exam)
    ensures var card := ExamDetailsCard(exam, now);
      card.componentTitle == exam.componentTitle && card.qualification == exam.qualification &&
      card.componentCode == exam.componentCode && card.centreNumber == exam.centreNumber &&
      card.startTime == ClockText(HourOf(exam.startTime), MinuteOf(exam.startTime)) &&
      card.finishTime == ClockText(HourOf(exam.endTime), MinuteOf(exam.endTime)) &&
      (card.extraTimeRow.Some? <==> exam.extraTime > 0) &&
      (card.extraTimeRow.Some? ==>
        card.extraTimeRow.value == MinuteOfDayText((MinuteOfDayOf(exam.endTime) + exam.extraTime) % MinutesPerDay))
  {
    if exam.extraTime > 0 {
      FinalFinishWrapsMidnight(exam, now);
    }
  }

  /** A finish before the start is shown as it is. */
  lemma EndBeforeStartShown(now: Instant)
    ensures var exam := ExamData("GCSE", "GMC11", "English Unit 4", "12345", "10:30", "09:00", 0);
      HasValidTimes(exam) &&
      ComputeExamTimes(exam, now).finish < ComputeExamTimes(exam, now).start &&
      ExamDetailsCard(exam, now).startTime == "10:30" && ExamDetailsCard(exam, now).finishTime == "09:00"
  {
    var exam := ExamData("GCSE", "GMC11", "English Unit 4", "12345", "10:30", "09:00", 0);
    ClockTextMatches(10, 30);
    ClockTextMatches(9, 0);
    assert exam.startTime == ClockText(10, 30) && exam.endTime == ClockText(9, 0);
    CardContents(exam, now);
  }

  /** One card per exam, in order; two columns for more than one exam, else one. */
  lemma PresentationLayout(data: PresentationData, now: Instant)
    requires AllHaveValidTimes(data)
    ensures var screen := RenderPresentation(data, now);
      |screen.cards| == |data| &&
      (forall i :: 0 <= i < |data| ==> screen.cards[i] == ExamDetailsCard(data[i], now)) &&
      ColumnCount(screen.gridColsClass) == (if |data| > 1 then 2 else 1)
  {
  }
}
