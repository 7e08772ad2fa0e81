/** The setup page's state (src/app/page.tsx): the exams in the form, the dual-exam
    switch, and the presentation data that replaces the form with the presentation once
    fullscreen has been entered. The browser's fullscreen state and toasts are modelled as
    fields; whether a fullscreen request or exit succeeds is a parameter. */
module SetupPage {
  import opened ExamTypes
  import opened ExamSchema
  import opened PresentationView
  import opened LocalTime

  datatype Toast = Toast(variant: string, title: string, description: string)

  const FullscreenErrorToast: Toast := Toast(
    "destructive", "Fullscreen Error",
    "Could not enter fullscreen mode. Please ensure your browser allows it.")

  /** What the page shows: the setup form, or the presentation in its place. */
  datatype Page =
    | SetupForm(exams: seq<RawExam>, dualExam: bool)
    | Presenting(screen: Screen)

  class Home {
    var presentationData: Option<PresentationData>
    var isDualExam: bool
    /** The values of the form's `exams` field array. */
    var exams: seq<RawExam>
    /** The issues the last submission reported; not what the form shows on screen. */
    var formIssues: seq<FormIssue>
    /** Whether the document is in fullscreen (`document.fullscreenElement` is set). */
    var isFullscreen: bool
    /** The toasts raised so far, oldest first. */
    var toasts: seq<Toast>

    /** The form always has an exam, and only a parsed form is ever presented. */
    ghost predicate Valid()
      reads this
    {
      |exams| >= 1 && (presentationData.Some? ==> FormConforms(presentationData.value))
    }

    /** The page as first rendered: the default exam, single-exam mode, no presentation. */
    constructor (inFullscreen: bool)
      ensures Valid()
      ensures presentationData == None && !isDualExam && exams == [DefaultExam]
      ensures formIssues == [] && isFullscreen == inFullscreen && toasts == []
    {
      presentationData := None;
      isDualExam := false;
      exams := [DefaultExam];
      formIssues := [];
      isFullscreen := inFullscreen;
      toasts := [];
    }

    /** `handleDualExamToggle`: switching on appends the second default exam; switching off
        removes the exam at index 1 when there is more than one. */
    method HandleDualExamToggle(checked: bool)
      requires Valid()
      modifies this
      ensures Valid()
      ensures isDualExam == checked
      ensures exams ==
        if checked then old(exams) + [SecondDefaultExam]
        else if |old(exams)| > 1 then old(exams[..1] + exams[2..])
        else old(exams)
      ensures exams[0] == old(exams[0])
      ensures old(isDualExam) != checked && |old(exams)| == (if old(isDualExam) then 2 else 1) ==>
        |exams| == (if isDualExam then 2 else 1)
      ensures presentationData == old(presentationData) && formIssues == old(formIssues)
      ensures isFullscreen == old(isFullscreen) && toasts == old(toasts)
    {
      isDualExam := checked;
      if checked {
        exams := exams + [SecondDefaultExam];
      } else {
        if |exams| > 1 {
          exams := exams[..1] + exams[2..];
        }
      }
    }

    /** A field's input binding replaces the values of the exam at `index`. */
    method EditExam(index: nat, raw: RawExam)
      requires Valid() && index < |exams|
      modifies this
      ensures Valid()
      ensures exams == old(exams)[index := raw]
      ensures isDualExam == old(isDualExam) && presentationData == old(presentationData)
      ensures formIssues == old(formIssues) && isFullscreen == old(isFullscreen) && toasts == old(toasts)
    {
      exams := exams[index := raw];
    }

    /** `handleStart`, called with the parsed form while the form is on screen: the
        presentation data is set only once fullscreen has been entered; a refused request
        raises the error toast instead and the data stays unset. */
    method HandleStart(values: seq<ExamData>, fullscreenGranted: bool)
      requires Valid() && FormConforms(values) && presentationData.None?
      modifies this
      ensures Valid()
      ensures presentationData == if fullscreenGranted then Some(values) else None
      ensures isFullscreen == (fullscreenGranted || old(isFullscreen))
      ensures toasts == if fullscreenGranted then old(toasts) else old(toasts) + [FullscreenErrorToast]
      ensures exams == old(exams) && isDualExam == old(isDualExam) && formIssues == old(formIssues)
    {
      if fullscreenGranted {
        isFullscreen := true;
        presentationData := Some(values);
      } else {
        toasts := toasts + [FullscreenErrorToast];
      }
    }

    /** `form.handleSubmit(handleStart)`: the form's values are checked against the form
        schema; a rejected form records its issues and starts nothing, an accepted one clears
        them and goes on to `handleStart` with the parsed exams. The form, and so its submit
        button, is on screen only while there is no presentation data. */
    method Submit(fullscreenGranted: bool)
      requires Valid() && presentationData.None?
      modifies this
      ensures Valid()
      ensures var r := ValidateForm(old(exams));
        && formIssues == (if r.Err? then r.error else [])
        && (r.Ok? && fullscreenGranted ==>
              presentationData == Some(r.value) && isFullscreen && toasts == old(toasts))
        && (r.Ok? && !fullscreenGranted ==>
              presentationData == None && isFullscreen == old(isFullscreen) &&
              toasts == old(toasts) + [FullscreenErrorToast])
        && (r.Err? ==>
              presentationData == None && isFullscreen == old(isFullscreen) &&
              toasts == old(toasts))
      ensures exams == old(exams) && isDualExam == old(isDualExam)
    {
      var r := ValidateForm(exams);
      if r.Err? {
        formIssues := r.error;
      } else {
        ValidateFormResult(exams);
        formIssues := [];
        HandleStart(r.value, fullscreenGranted);
      }
    }

    /** `handleExit`: leaves fullscreen if the document is in it, and clears the
        presentation data whether or not leaving fullscreen succeeded. */
    method HandleExit(exitSucceeds: bool)
      requires Valid()
      modifies this
      ensures Valid()
      ensures presentationData == None
      ensures isFullscreen == (old(isFullscreen) && !exitSucceeds)
      ensures exams == old(exams) && isDualExam == old(isDualExam)
      ensures formIssues == old(formIssues) && toasts == old(toasts)
    {
      if isFullscreen {
        if exitSucceeds {
          isFullscreen := false;
        }
      }
      presentationData := None;
    }

    /** The page rendered at `now`: the presentation while there is presentation data, laid
        out in as many columns as there are exams, and otherwise the setup form. */
    function Render(now: Instant): (page: Page)
      reads this
      requires Valid()
      ensures page.Presenting? <==> presentationData.Some?
      ensures page.Presenting? ==>
        |page.screen.cards| == |presentationData.value| &&
        ColumnCount(page.screen.gridColsClass) == |presentationData.value| &&
        forall i :: 0 <= i < |presentationData.value| ==>
          page.screen.cards[i] == ExamDetailsCard(presentationData.value[i], now)
      ensures page.SetupForm? ==> page.exams == exams && page.dualExam == isDualExam
    {
      if presentationData.Some? then
        var data := presentationData.value;
        PresentationLayout(data, now);
        Presenting(RenderPresentation(data, now))
      else
        SetupForm(exams, isDualExam)
    }
  }

  /** An example session, not part of the page: switch to two exams, start with fullscreen granted, present both side by
      side, and exit again to the form. */
  method DualExamSession(now: Instant)
  {
    var home := new Home(false);
    home.HandleDualExamToggle(true);
    assert home.exams == [DefaultExam, SecondDefaultExam];
    DefaultsValid();
    home.Submit(true);
    assert home.presentationData.Some? && |home.presentationData.value| == 2;
    var page := home.Render(now);
    assert page.Presenting? && |page.screen.cards| == 2;
    home.HandleExit(false);
    assert home.presentationData == None && home.isFullscreen;
  }
}
