/** The two records the board works on: an interview step (one column) and a
    candidate (one card). Identifiers are JavaScript numbers in the program;
    here they are unbounded integers, since they are only ever compared. */
module KanbanTypes {

  /** One stage of a position's interview flow. `name` is the key candidates
      are grouped by; `orderIndex` fixes the column's place from left to right. */
  datatype InterviewStep = InterviewStep(
    id: int,
    interviewFlowId: int,
    interviewTypeId: int,
    name: string,
    orderIndex: int
  )

  /** One candidate of the position. `currentInterviewStep` is the NAME of the
      candidate's step, not its id; `applicationId` addresses the backend
      update. `averageScore` is a floating-point number in the program and is
      carried here as an opaque integer: nothing in the board's logic reads it. */
  datatype Candidate = Candidate(
    id: int,
    fullName: string,
    currentInterviewStep: string,
    averageScore: int,
    applicationId: int
  )

  /** `name` is the name of some step of `steps`. */
  predicate KnownStage(steps: seq<InterviewStep>, name: string) {
    exists j :: 0 <= j < |steps| && steps[j].name == name
  }

  /** Two candidate lists are the same list of people, position by position,
      and may differ only in the stage each one is at. */
  predicate SameExceptStages(a: seq<Candidate>, b: seq<Candidate>) {
    && |a| == |b|
    && forall i :: 0 <= i < |a| ==>
         && a[i].id == b[i].id
         && a[i].fullName == b[i].fullName
         && a[i].averageScore == b[i].averageScore
         && a[i].applicationId == b[i].applicationId
  }
}
