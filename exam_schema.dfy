/** The setup form's validation (src/app/page.tsx): `examSchema` checks one exam as the
    form holds it, `formSchema` checks the list of one or two exams, and each turns valid
    input into the `ExamData` records the presentation receives. */
module ExamSchema {
  import opened ExamTypes
  import opened TimePattern

  /** One exam as the form holds it; `extraTime` is the number the input coerces to, or
      absent. */
  datatype RawExam = RawExam(
    qualification: string,
    componentCode: string,
    componentTitle: string,
    centreNumber: string,
    startTime: string,
    endTime: string,
    extraTime: Option<real>)

  datatype TextField = Qualification | ComponentCode | ComponentTitle | CentreNumber

  datatype TimeField = StartTime | EndTime

  /** A failed check of one exam. */
  datatype Issue =
    | Required(field: TextField)          // `.min(1)` on a string
    | BadTimeFormat(timeField: TimeField) // `.regex(...)` on a time
    | NotInteger                    // `.int()` on extraTime
    | Negative                      // `.min(0)` on extraTime

  /** A failed check of the form. */
  datatype FormIssue = TooFewExams | TooManyExams | InExam(index: nat, issue: Issue)

  predicate IsInteger(x: real) {
    x == x.Floor as real
  }

  function RequiredIssues(value: string, field: TextField): seq<Issue> {
    if |value| >= 1 then [] else [Required(field)]
  }

  function TimeIssues(value: string, field: TimeField): seq<Issue> {
    if IsTimeString(value) then [] else [BadTimeFormat(field)]
  }

  /** `.int().min(0).optional().default(0)`: an absent value becomes 0; both number checks
      run, so a negative fraction fails both. */
  function ExtraTimeIssues(value: Option<real>): seq<Issue> {
    match value
    case None => []
    case Some(x) => (if IsInteger(x) then [] else [NotInteger]) + (if x >= 0.0 then [] else [Negative])
  }

  /** Every issue of one exam, in the schema's field order. */
  function ExamIssues(raw: RawExam): seq<Issue> {
    RequiredIssues(raw.qualification, Qualification) +
    RequiredIssues(raw.componentCode, ComponentCode) +
    RequiredIssues(raw.componentTitle, ComponentTitle) +
    RequiredIssues(raw.centreNumber, CentreNumber) +
    TimeIssues(raw.startTime, StartTime) +
    TimeIssues(raw.endTime, EndTime) +
    ExtraTimeIssues(raw.extraTime)
  }

  /** `extraTime` after the default is applied. */
  function ExtraTimeMinutes(value: Option<real>): int {
    match value
    case None => 0
    case Some(x) => x.Floor
  }

  /** `examSchema.safeParse`. */
  function ValidateExam(raw: RawExam): (r: Result<ExamData, seq<Issue>>)
    ensures r.Err? ==> |r.error| > 0
  {
    var issues := ExamIssues(raw);
    if issues == [] then
      Ok(ExamData(raw.qualification, raw.componentCode, raw.componentTitle, raw.centreNumber,
                  raw.startTime, raw.endTime, ExtraTimeMinutes(raw.extraTime)))
    else Err(issues)
  }

  /** What a parsed exam satisfies: the schema's output type. */
  predicate ConformsToSchema(exam: ExamData) {
    && |exam.qualification| >= 1 && |exam.componentCode| >= 1
    && |exam.componentTitle| >= 1 && |exam.centreNumber| >= 1
    && IsTimeString(exam.startTime) && IsTimeString(exam.endTime)
    && exam.extraTime >= 0
  }

  /** What a parsed form satisfies: one or two conforming exams. */
  predicate FormConforms(exams: seq<ExamData>) {
    1 <= |exams| <= 2 && forall i :: 0 <= i < |exams| ==> ConformsToSchema(exams[i])
  }

  function Tagged(index: nat, issues: seq<Issue>): (r: seq<FormIssue>)
    ensures |r| == |issues|
    ensures forall j :: 0 <= j < |r| ==> r[j] == InExam(index, issues[j])
  {
    seq(|issues|, j requires 0 <= j < |issues| => InExam(index, issues[j]))
  }

  /** Each exam's own issues, in form order. */
  function IssueLists(exams: seq<RawExam>): (lists: seq<seq<Issue>>)
    ensures |lists| == |exams|
    ensures forall i :: 0 <= i < |exams| ==> lists[i] == ExamIssues(exams[i])
  {
    seq(|exams|, i requires 0 <= i < |exams| => ExamIssues(exams[i]))
  }

  /** The issue lists from index `offset` on, each issue tagged with its exam's index. */
  function ElementIssues(lists: seq<seq<Issue>>, offset: nat): seq<FormIssue>
    decreases |lists|
  {
    if lists == [] then []
    else Tagged(offset, lists[0]) + ElementIssues(lists[1..], offset + 1)
  }

  function LengthIssues(count: nat): seq<FormIssue> {
    (if count >= 1 then [] else [TooFewExams]) + (if count <= 2 then [] else [TooManyExams])
  }

  /** `formSchema.safeParse`: the length checks, then every exam's checks. */
  function ValidateForm(exams: seq<RawExam>): (r: Result<seq<ExamData>, seq<FormIssue>>)
    ensures r.Err? ==> |r.error| > 0
    ensures r.Ok? ==> |r.value| == |exams| && 1 <= |exams| <= 2
  {
    var issues := LengthIssues(|exams|) + ElementIssues(IssueLists(exams), 0);
    if issues == [] then
      ElementIssuesEmpty(IssueLists(exams), 0);
      Ok(seq(|exams|, i requires 0 <= i < |exams| => ValidateExam(exams[i]).value))
    else Err(issues)
  }

  // ---- Properties -------------------------------------------------------------------

  /** An exam passes exactly when every field passes its check. */
  lemma ValidateExamAccepts(raw: RawExam)
    ensures ValidateExam(raw).Ok? <==>
      && |raw.qualification| >= 1 && |raw.componentCode| >= 1
      && |raw.componentTitle| >= 1 && |raw.centreNumber| >= 1
      && IsTimeString(raw.startTime) && IsTimeString(raw.endTime)
      && (raw.extraTime.None? || (IsInteger(raw.extraTime.value) && raw.extraTime.value >= 0.0))
  {
  }

  /** A parsed exam keeps the form's texts, carries the given extra time or 0 when it is
      absent, and conforms to the schema. */
  lemma ValidateExamResult(raw: RawExam)
    requires ValidateExam(raw).Ok?
    ensures var e := ValidateExam(raw).value;
      && e.qualification == raw.qualification && e.componentCode == raw.componentCode
      && e.componentTitle == raw.componentTitle && e.centreNumber == raw.centreNumber
      && e.startTime == raw.startTime && e.endTime == raw.endTime
      && (raw.extraTime.None? ==> e.extraTime == 0)
      && (raw.extraTime.Some? ==> e.extraTime as real == raw.extraTime.value)
      && ConformsToSchema(e)
  {
    ValidateExamAccepts(raw);
  }

  lemma RequiredIssuesHave(value: string, field: TextField, issue: Issue)
    ensures issue in RequiredIssues(value, field) <==> issue == Required(field) && |value| == 0
  {
  }

  lemma TimeIssuesHave(value: string, field: TimeField, issue: Issue)
    ensures issue in TimeIssues(value, field) <==> issue == BadTimeFormat(field) && !IsTimeString(value)
  {
  }

  lemma ExtraTimeIssuesHave(value: Option<real>, issue: Issue)
    ensures issue in ExtraTimeIssues(value) <==>
      || (issue == NotInteger && value.Some? && !IsInteger(value.value))
      || (issue == Negative && value.Some? && value.value < 0.0)
  {
  }

  /** A rejected exam reports each failed check and no other. */
  lemma ValidateExamReports(raw: RawExam, issue: Issue)
    ensures issue in ExamIssues(raw) <==>
      match issue
      case Required(Qualification) => |raw.qualification| == 0
      case Required(ComponentCode) => |raw.componentCode| == 0
      case Required(ComponentTitle) => |raw.componentTitle| == 0
      case Required(CentreNumber) => |raw.centreNumber| == 0
      case BadTimeFormat(StartTime) => !IsTimeString(raw.startTime)
      case BadTimeFormat(EndTime) => !IsTimeString(raw.endTime)
      case NotInteger => raw.extraTime.Some? && !IsInteger(raw.extraTime.value)
      case Negative => raw.extraTime.Some? && raw.extraTime.value < 0.0
  {
    RequiredIssuesHave(raw.qualification, Qualification, issue);
    RequiredIssuesHave(raw.componentCode, ComponentCode, issue);
    RequiredIssuesHave(raw.componentTitle, ComponentTitle, issue);
    RequiredIssuesHave(raw.centreNumber, CentreNumber, issue);
    TimeIssuesHave(raw.startTime, StartTime, issue);
    TimeIssuesHave(raw.endTime, EndTime, issue);
    ExtraTimeIssuesHave(raw.extraTime, issue);
  }

  lemma {:induction false} ElementIssuesEmpty(lists: seq<seq<Issue>>, offset: nat)
    ensures ElementIssues(lists, offset) == [] <==> forall i :: 0 <= i < |lists| ==> lists[i] == []
    decreases |lists|
  {
    if lists != [] {
      ElementIssuesEmpty(lists[1..], offset + 1);
      assert forall i :: 1 <= i < |lists| ==> lists[1..][i - 1] == lists[i];
    }
  }

  lemma TaggedHas(offset: nat, issues: seq<Issue>, index: nat, issue: Issue)
    ensures InExam(index, issue) in Tagged(offset, issues) <==> index == offset && issue in issues
  {
    if index == offset && issue in issues {
      var j :| 0 <= j < |issues| && issues[j] == issue;
      assert Tagged(offset, issues)[j] == InExam(index, issue);
    }
  }

  /** An issue tagged `index` appears exactly when the list for that index has it. */
  lemma {:induction false} ElementIssuesLocate(lists: seq<seq<Issue>>, offset: nat, index: nat, issue: Issue)
    ensures InExam(index, issue) in ElementIssues(lists, offset) <==>
      offset <= index < offset + |lists| && issue in lists[index - offset]
    decreases |lists|
  {
    if lists != [] {
      var head, tail := Tagged(offset, lists[0]), ElementIssues(lists[1..], offset + 1);
      assert ElementIssues(lists, offset) == head + tail;
      ElementIssuesLocate(lists[1..], offset + 1, index, issue);
      TaggedHas(offset, lists[0], index, issue);
      if offset + 1 <= index < offset + |lists| {
        assert lists[1..][index - (offset + 1)] == lists[index - offset];
      }
    }
  }

  /** The form passes exactly when it has one or two exams and each of them passes. */
  lemma ValidateFormAccepts(exams: seq<RawExam>)
    ensures ValidateForm(exams).Ok? <==>
      1 <= |exams| <= 2 && forall i :: 0 <= i < |exams| ==> ValidateExam(exams[i]).Ok?
  {
    ElementIssuesEmpty(IssueLists(exams), 0);
  }

  /** A parsed form is the exams parsed one by one, in order, and conforms to the schema. */
  lemma ValidateFormResult(exams: seq<RawExam>)
    requires ValidateForm(exams).Ok?
    ensures var parsed := ValidateForm(exams).value;
      |parsed| == |exams| &&
      (forall i :: 0 <= i < |exams| ==> ValidateExam(exams[i]) == Ok(parsed[i])) &&
      FormConforms(parsed)
  {
    ValidateFormAccepts(exams);
    var parsed := ValidateForm(exams).value;
    forall i | 0 <= i < |exams| ensures ConformsToSchema(parsed[i]) {
      ValidateExamResult(exams[i]);
    }
  }

  /** A rejected form names each exam's failed checks with that exam's index. */
  lemma ValidateFormReports(exams: seq<RawExam>, index: nat, issue: Issue)
    requires ValidateForm(exams).Err?
    ensures InExam(index, issue) in ValidateForm(exams).error <==>
      index < |exams| && issue in ExamIssues(exams[index])
    ensures TooFewExams in ValidateForm(exams).error <==> |exams| == 0
    ensures TooManyExams in ValidateForm(exams).error <==> |exams| > 2
  {
    var lists := IssueLists(exams);
    ElementIssuesLocate(lists, 0, index, issue);
    ElementIssuesTagged(lists, 0);
  }

  lemma {:induction false} ElementIssuesTagged(lists: seq<seq<Issue>>, offset: nat)
    ensures forall f :: f in ElementIssues(lists, offset) ==> f.InExam?
    decreases |lists|
  {
    if lists != [] {
      ElementIssuesTagged(lists[1..], offset + 1);
    }
  }

  // ---- Default form values ----------------------------------------------------------

  /** The single exam the form starts with. */
  const DefaultExam: RawExam :=
    RawExam("GCSE", "GMC11", "English Unit 4", "12345", "09:00", "10:30", Some(0.0))

  /** The exam appended when dual-exam mode is switched on. */
  const SecondDefaultExam: RawExam :=
    RawExam("GCSE", "MTH22", "Mathematics Unit 2", "12345", "11:00", "12:30", Some(0.0))

  /** Both default exams pass, separately and together, with no extra time. */
  lemma DefaultsValid()
    ensures ValidateForm([DefaultExam]) ==
      Ok([ExamData("GCSE", "GMC11", "English Unit 4", "12345", "09:00", "10:30", 0)])
    ensures ValidateForm([DefaultExam, SecondDefaultExam]) ==
      Ok([ExamData("GCSE", "GMC11", "English Unit 4", "12345", "09:00", "10:30", 0),
          ExamData("GCSE", "MTH22", "Mathematics Unit 2", "12345", "11:00", "12:30", 0)])
  {
    assert IsTimeString("09:00") && IsTimeString("10:30");
    assert IsTimeString("11:00") && IsTimeString("12:30");
    var first := ExamData("GCSE", "GMC11", "English Unit 4", "12345", "09:00", "10:30", 0);
    var second := ExamData("GCSE", "MTH22", "Mathematics Unit 2", "12345", "11:00", "12:30", 0);
    assert ValidateExam(DefaultExam) == Ok(first);
    assert ValidateExam(SecondDefaultExam) == Ok(second);
    ValidateFormAccepts([DefaultExam]);
    ValidateFormResult([DefaultExam]);
    assert ValidateForm([DefaultExam]).value == [first];
    ValidateFormAccepts([DefaultExam, SecondDefaultExam]);
    ValidateFormResult([DefaultExam, SecondDefaultExam]);
    assert ValidateForm([DefaultExam, SecondDefaultExam]).value == [first, second];
  }
}
