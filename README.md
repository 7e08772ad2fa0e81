# Exam presenter: time-of-day handling and setup-form state in Dafny

The exam presenter is a browser front end for exam invigilators. A setup form collects
one or two exam components. Each has a qualification, a component code and title, a
centre number, a start and an end time written `HH:MM`, and minutes of extra time. Once
the browser enters fullscreen, the presentation screen shows one card per exam, with the
start time, the finish time and, when extra time was given, the final finish time.

This project models two source files:

- `src/components/presentation-view.tsx`, which is pure: times are parsed into local
  dates, extra time is added, and times are rendered as `HH:MM`. It also covers the card
  and grid layout and the Escape-key exit.
- `src/app/page.tsx`, which is mixed: the form's validation schemas are predicates and
  functions, and the page state is a class whose methods are the event handlers.

Modules, one per file:

- `ExamTypes` (`types.dfy`): `ExamData` and `PresentationData` from `src/lib/types.ts`,
  plus `Option` and `Result`.
- `Text` (`text.dfy`): `split` with one separator character, `Number` on a digit string,
  and two-digit padding.
- `LocalTime` (`local_time.dfy`): a JavaScript `Date`, as milliseconds since a local
  midnight. Its hour, minute, second and millisecond fields are read like `getHours` and
  `getMinutes`. `setHours` and `setMinutes` are written with ECMAScript's carrying of
  out-of-range fields.
- `TimePattern` (`time_pattern.dfy`): the schema's regular expression
  `^([0-1]?[0-9]|2[0-3]):[0-5][0-9]$`, written as its hour group and minute group.
- `PresentationView` (`presentation_view.dfy`): `parseTimeToDate`, the times computed in
  `ExamDetailsCard`, `formatTime`, the card and screen contents, `gridColsClass` and the
  exit rule.
- `ExamSchema` (`exam_schema.dfy`): `examSchema` and `formSchema` as functions that return
  the parsed records or the list of failed checks, plus the two default exams.
- `SetupPage` (`home_page.dfy`): class `Home` holds `presentationData`, `isDualExam`, the
  form's `exams` field array, the fullscreen flag and the toasts raised. Its methods are
  `handleDualExamToggle`, `handleStart`, the form submission, `handleExit` and the
  page's choice between form and presentation.

The current clock reading (`new Date()`) is a parameter `now`. Whether the browser grants
or refuses a fullscreen request, or an exit from fullscreen, is a boolean parameter.

The code computes no countdown or progress. On a refused fullscreen request it raises a
toast and the form stays on screen.

## Model

| member | source | states |
|---|---|---|
| `PresentationView.ParseTimeToDate` | src/components/presentation-view.tsx:16-21 | a valid time string becomes a date on the day of `now` with exactly the written hour (0..23) and minute (0..59), zero seconds and milliseconds; its minute of the day is `h*60+m` |
| `PresentationView.ParseIsMinuteOfDay` | src/components/presentation-view.tsx:16-21 | the parsed date is the local midnight of `now` plus `h*60+m` minutes |
| `PresentationView.ParsedTimeInDay` | src/components/presentation-view.tsx:16-21 | the parsed date lies within the day of `now` and is a whole number of minutes after its midnight |
| `TimePattern.SplitTimeString` | src/components/presentation-view.tsx:17 | `split(':')` of a valid time string gives exactly two pieces: the hour text and the minute text, both all digits |
| `Text.JoinSplit` | src/components/presentation-view.tsx:17 | `split` loses nothing: joining the pieces with the separator rebuilds the string |
| `Text.SplitAtOnlySeparator` | src/components/presentation-view.tsx:17 | a string with one separator at index k splits into the text before k and the text after it |
| `Text.Split` | src/components/presentation-view.tsx:17 | `split` with one separator character gives at least one piece, and no piece contains the separator |
| `Text.DecimalValue` | src/components/presentation-view.tsx:17 | `Number` of a digit string is a natural number below ten to the power of its length |
| `Text.Pad2` | src/components/presentation-view.tsx:37 | the `'2-digit'` rendering of a number below 100 is two digits that read back as that number |
| `Text.Pad2OfDecimal` | src/components/presentation-view.tsx:37 | two-digit padding inverts `Number` on two-digit strings |
| `TimePattern.IsTimeString` | src/app/page.tsx:24 | the whole string is an hour group of one or two characters (`[0-1]?[0-9]` or `2[0-3]`), a colon and a two-digit minute group `[0-5][0-9]`; a match is four or five characters, all digits but the colon third from the end |
| `TimePattern.HourOf` | src/app/page.tsx:24 | the hour a matching string denotes is below 24 |
| `TimePattern.MinuteOf` | src/app/page.tsx:24 | the minute a matching string denotes is below 60 |
| `TimePattern.TimeStringShape` | src/app/page.tsx:24 | every matching string has length 4 or 5; it is `HH:MM` of its hour and minute, or that text without the leading zero of a one-digit hour |
| `TimePattern.ClockTextMatches` | src/app/page.tsx:24 | every `HH:MM` with hour below 24 and minute below 60 matches and denotes that hour and minute (with TimeStringShape: matching means exactly this or the short form) |
| `TimePattern.ShortClockTextMatches` | src/app/page.tsx:24 | a one-digit hour without padding, such as `9:05`, matches |
| `TimePattern.RejectedExamples` | src/app/page.tsx:24-25 | `24:00`, `9:5` and `009:00` are rejected |
| `LocalTime.FieldsOfInstant` | src/components/presentation-view.tsx:19 | a date built from in-range fields reads those fields back; its minute of the day is `h*60+m` |
| `LocalTime.SetHours` | src/components/presentation-view.tsx:19 | `setHours(h, m, s, ms)` with in-range fields keeps the local date and sets exactly those four fields |
| `LocalTime.SetMinutes` | src/components/presentation-view.tsx:28 | `setMinutes(m)` moves the date by the difference between `m` and its current minute, so an out-of-range minute carries into hours and days |
| `LocalTime.InstantOfFields` | src/components/presentation-view.tsx:27-28 | every date equals the date rebuilt from its own fields |
| `LocalTime.SetMinutesAdds` | src/components/presentation-view.tsx:27-28 | `setMinutes(getMinutes() + x)` moves the date by exactly x minutes, across hour and day boundaries |
| `PresentationView.ComputeExamTimes` | src/components/presentation-view.tsx:24-35 | start and finish are the parses of the two time fields; the final finish is the finish plus `extraTime` minutes |
| `PresentationView.FormatTime` | src/components/presentation-view.tsx:37 | the rendering is five characters `HH:MM` that match the schema pattern and read back as the date's hour and minute |
| `PresentationView.FormatParseRoundTrip` | src/components/presentation-view.tsx:16-37 | formatting a parsed string returns it when its hour has two digits, and returns it with a leading `0` otherwise |
| `PresentationView.SingleDigitHourPadded` | src/components/presentation-view.tsx:16-37 | `9:05` is shown as `09:05` |
| `PresentationView.ParseFormatRoundTrip` | src/components/presentation-view.tsx:16-37 | parsing a formatted date keeps its hour and minute, on the day of `now`, with seconds dropped |
| `PresentationView.FinalFinishNotEarlier` | src/components/presentation-view.tsx:26-28 | with `extraTime >= 0` the final finish is never before the finish, and equals it exactly when `extraTime` is 0 |
| `PresentationView.FinalFinishMonotone` | src/components/presentation-view.tsx:27-28 | more extra time never gives an earlier final finish |
| `PresentationView.TimesIndependent` | src/components/presentation-view.tsx:24-35 | the start depends only on `startTime` and the finish only on `endTime`; no order is required between them |
| `PresentationView.FinalFinishWrapsMidnight` | src/components/presentation-view.tsx:27-37 | the final finish lies `(end+extra) div 1440` days after today, at minute `(end+extra) mod 1440`, and that minute is what is displayed |
| `PresentationView.MidnightExample` | src/components/presentation-view.tsx:23-89 | an exam ending at 23:30 with 45 minutes' extra time shows a final finish of 00:15 |
| `PresentationView.CardContents` | src/components/presentation-view.tsx:23-92 | a card shows the exam's four texts and its start and finish as normalised `HH:MM`; the extra-time row appears if and only if `extraTime > 0`, and then shows `(end+extra) mod 1440` |
| `PresentationView.EndBeforeStartShown` | src/components/presentation-view.tsx:24-35 | a finish before the start (10:30 to 09:00) is shown as written, with no error |
| `PresentationView.ExamDetailsCard` | src/components/presentation-view.tsx:23-93 | a card shows the exam's component title, qualification, component code and centre number unchanged, start and finish as strings matching the schema pattern, and an extra-time row if and only if `extraTime > 0` |
| `PresentationView.GridColsClass` | src/components/presentation-view.tsx:107 | the grid class names 2 columns when there is more than one exam, else 1 |
| `PresentationView.RenderPresentation` | src/components/presentation-view.tsx:107-123 | the screen has one card per exam, each carrying its own exam's title in input order, and the grid's column count |
| `PresentationView.CallsOnExit` | src/components/presentation-view.tsx:96-112 | an input calls `onExit` if and only if it is a click on the exit button or a key press of `Escape` |
| `PresentationView.PresentationLayout` | src/components/presentation-view.tsx:107-123 | one card per exam, in input order; 2 columns when there is more than one exam, else 1 |
| `ExamSchema.ValidateExam` | src/app/page.tsx:19-27 | a rejected exam always carries at least one issue |
| `ExamSchema.ValidateExamAccepts` | src/app/page.tsx:19-27 | an exam passes if and only if the four texts are non-empty, both times match the pattern, and extraTime is absent or a non-negative integer |
| `ExamSchema.ValidateExamResult` | src/app/page.tsx:19-27 | a parsed exam keeps the form's texts; its extraTime is the given number or 0 when absent; it conforms to the schema |
| `ExamSchema.ValidateExamReports` | src/app/page.tsx:19-27 | each issue is reported if and only if its check fails; a negative fraction fails both `.int()` and `.min(0)` |
| `ExamSchema.ValidateForm` | src/app/page.tsx:29-31 | a rejected form always carries at least one issue; a parsed form has as many exams as the input, 1 or 2 |
| `ExamSchema.ValidateFormAccepts` | src/app/page.tsx:29-31 | a form passes if and only if it has 1 or 2 exams and each of them passes |
| `ExamSchema.ValidateFormResult` | src/app/page.tsx:29-31 | a parsed form is the list of the exams parsed one by one, in order, and has 1 or 2 conforming exams |
| `ExamSchema.ValidateFormReports` | src/app/page.tsx:29-31 | a rejected form reports an exam's issue under that exam's index if and only if the exam has it, and reports too few or too many exams if and only if that is the case |
| `ExamSchema.DefaultsValid` | src/app/page.tsx:41-72 | the default exam (09:00 to 10:30, extra time 0) passes alone, and together with the second default exam (11:00 to 12:30) |
| `SetupPage.Home.constructor` | src/app/page.tsx:35-54 | the page starts with no presentation, dual-exam mode off and the single default exam |
| `SetupPage.Home.HandleDualExamToggle` | src/app/page.tsx:61-79 | switching on appends exactly the second default exam; switching off removes index 1 only when there is more than one exam; the first exam never changes; an alternating switch keeps exactly 1 or 2 exams |
| `SetupPage.Home.EditExam` | src/app/page.tsx:149-241 | a field binding replaces one exam's values and nothing else |
| `SetupPage.Home.HandleStart` | src/app/page.tsx:82-94 | called while the form is on screen, the presentation data becomes the submitted exams only if fullscreen is granted; otherwise it stays unset and the fullscreen-error toast is raised |
| `SetupPage.Home.Submit` | src/app/page.tsx:138 | a rejected form records the issues it reported and starts nothing; an accepted form clears them and starts with the parsed exams |
| `SetupPage.Home.HandleExit` | src/app/page.tsx:96-106 | the presentation data is cleared whether or not leaving fullscreen succeeds |
| `SetupPage.Home.Render` | src/app/page.tsx:108-110 | the presentation is shown exactly while there is presentation data: card i is the details card of the i-th exam of that data, in order, with as many columns as exams; otherwise the form with its exams and dual-exam switch is shown |

## Left out

- `ParseTimeToDate` requires a string matching the pattern. Callers pass only validated
  exams. The result `Number` gives for other strings (NaN, an invalid date) is not modelled.
- `ComputeExamTimes` takes a single `now` for both parses. The source reads the clock once
  per parse, and the model does not cover two reads that fall on different days.
- `ComputeExamTimes`: a JavaScript `Date` holds at most 8.64e15 ms either side of the epoch
  and is "Invalid Date" beyond. Instants here are unbounded, so extra time above roughly
  1.4e11 minutes, which the source shows as "Invalid Date", gives a wrapped clock time.
- `LocalTime`: time zones and daylight-saving changes are not modelled. A local day is
  always 24 hours.
- `FormatTime`: the locale formatter's internals are not modelled. It is taken to use the
  0 to 23 hour cycle of `en-GB`.
- `RawExam.extraTime`: Zod's string-to-number coercion is not modelled. The field holds the
  number the input coerces to, or is absent. NaN and infinities are not represented.
- The checks' messages (such as "Please use HH:MM format.") are not modelled. An issue
  records which check failed on which field. Which issue the form shows under each field
  is not modelled either.
- `ExamDetailsCard` uses `extraTime || 0`. This is the identity on integers, because 0 is
  the only falsy integer. `ExamData.extraTime` is an integer, so the missing case cannot
  arise in the model.
- `Home.formIssues` is only the result of the last submission. The error messages shown
  under the fields are not modelled: their re-check on every change after a submission,
  and the dropping of a removed exam's errors by `remove(1)`, are left out, so the setup
  form's rendering carries no issues.
- The `await` of the fullscreen calls is folded into each handler. The handler is modelled
  as completed, and two interleaved handlers are not modelled.
- `console.error` calls, styling, icons and React's rendering machinery are not modelled.
  `Page`, `Screen` and `DetailsCard` record only part of what is displayed: the form's
  values and switch, and each card's texts and times.
- The wall clock (`src/components/clock.tsx`) is left out as timer and locale plumbing.
  The decorative animated components and `src/app/tools/page.tsx` are left out because
  they have no statable behaviour.
- The browser's own exit from fullscreen and its handling of Escape in fullscreen are left
  out. Only the page's keydown listener is modelled.
