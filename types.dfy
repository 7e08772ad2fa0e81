/** The records shared by the setup page and the presentation view (src/lib/types.ts). */
module ExamTypes {

  datatype Option<+T> = None | Some(value: T)

  datatype Result<+T, +E> = Ok(value: T) | Err(error: E)

  /** One exam component as the presentation view receives it; `extraTime` is in minutes. */
  datatype ExamData = ExamData(
    qualification: string,
    componentCode: string,
    componentTitle: string,
    centreNumber: string,
    startTime: string,
    endTime: string,
    extraTime: int)

  /** The exams shown side by side on the presentation screen, in form order. */
  type PresentationData = seq<ExamData>
}
