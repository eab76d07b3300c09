/** The board's state machine (KanbanBoard.tsx): the candidate list it owns,
    the single drag slot, the toast, the auto-clear timers it has started and
    the backend stage updates still in flight. Each user or runtime callback is
    one pure step function from board to board. */
module Board {
  import opened Wrappers
  import opened KanbanTypes

  /** The toast's Bootstrap variant. */
  datatype Variant = Success | Danger

  const StepNotFoundMessage: string := "\U{2715} Error: Etapa no encontrada"
  const MovedMessage: string := "\U{2713} Candidato movido exitosamente"
  const MoveFailedMessage: string := "\U{2715} Error al mover candidato. Int\U{e9}ntalo nuevamente."

  /** One call to the stage-update service that has not answered yet: the
      arguments it was made with and the list as it was just before the
      optimistic move, kept for the rollback. */
  datatype Request = Request(
    requestId: nat,
    candidateId: int,
    applicationId: int,
    stepId: int,
    snapshot: seq<Candidate>
  )

  /** Everything the board component holds. `timers` counts the auto-clear
      callbacks scheduled and not yet fired; `nextRequest` numbers the calls. */
  datatype Board = Board(
    steps: seq<InterviewStep>,
    candidates: seq<Candidate>,
    dragged: Option<Candidate>,
    toastMessage: Option<string>,
    toastVariant: Variant,
    timers: nat,
    pending: seq<Request>,
    nextRequest: nat
  )

  /** The board as first rendered: the loaded list, nothing dragged, no toast
      and the variant's initial value `success`. */
  function Init(steps: seq<InterviewStep>, cs: seq<Candidate>): (b: Board)
    ensures b.candidates == cs && b.steps == steps
    ensures b.dragged.None? && b.toastMessage.None? && b.pending == []
  {
    Board(steps, cs, None, None, Success, 0, [], 0)
  }

  /** `j` is the position of the first step named `name`. */
  predicate IsFirstNamed(steps: seq<InterviewStep>, name: string, j: int) {
    && 0 <= j < |steps|
    && steps[j].name == name
    && forall i :: 0 <= i < j ==> steps[i].name != name
  }

  /** `interviewSteps.find(step => step.name === stepName)`, as a position. */
  function FindStep(steps: seq<InterviewStep>, name: string): (r: Option<nat>)
    ensures r.Some? ==> IsFirstNamed(steps, name, r.value)
    ensures r.None? <==> !KnownStage(steps, name)
    decreases |steps|
  {
    if |steps| == 0 then None
    else if steps[0].name == name then Some(0)
    else
      match FindStep(steps[1..], name)
      case None => None
      case Some(j) => Some(j + 1)
  }

  /** The optimistic `candidates.map(...)`: every entry whose id is `id` is
      put at stage `name`; every other entry, and every other field, is kept. */
  function MoveCandidate(cs: seq<Candidate>, id: int, name: string): (r: seq<Candidate>)
    ensures SameExceptStages(cs, r)
    ensures forall i :: 0 <= i < |r| ==>
              r[i].currentInterviewStep == (if cs[i].id == id then name else cs[i].currentInterviewStep)
    decreases |cs|
  {
    if |cs| == 0 then []
    else
      var c := cs[|cs| - 1];
      MoveCandidate(cs[..|cs| - 1], id, name)
      + [if c.id == id then c.(currentInterviewStep := name) else c]
  }

  /** Shows a toast and schedules its three-second auto-clear. */
  function ShowToast(b: Board, message: string, variant: Variant): (r: Board)
    ensures r.toastMessage == Some(message) && r.toastVariant == variant
    ensures r.timers == b.timers + 1
    ensures r.(toastMessage := b.toastMessage, toastVariant := b.toastVariant, timers := b.timers) == b
  {
    b.(toastMessage := Some(message), toastVariant := variant, timers := b.timers + 1)
  }

  /** `handleDragStart`: the last drag start wins. */
  function DragStart(b: Board, c: Candidate): (r: Board)
    ensures r.dragged == Some(c)
    ensures r.(dragged := b.dragged) == b
  {
    b.(dragged := Some(c))
  }

  /** The backend call that the drop on `stepName` made: numbered
      `b.nextRequest`, for the dragged candidate's id and application id and
      the id of the FIRST step named `stepName`, with the list before the move. */
  predicate IssuedRequest(b: Board, d: Candidate, stepName: string, req: Request) {
    && req.requestId == b.nextRequest
    && req.candidateId == d.id
    && req.applicationId == d.applicationId
    && req.snapshot == b.candidates
    && exists j :: 0 <= j < |b.steps| && IsFirstNamed(b.steps, stepName, j) && req.stepId == b.steps[j].id
  }

  /** `r` is `b` after the optimistic move of `d` to `stepName`: every entry
      with `d`'s id, and only those, is at `stepName`, nothing else about any
      entry has changed, the drag slot is empty, and exactly one call is added
      to those in flight; the toast and timers are untouched. */
  predicate OptimisticMove(b: Board, d: Candidate, stepName: string, r: Board) {
    && SameExceptStages(b.candidates, r.candidates)
    && (forall i :: 0 <= i < |r.candidates| ==>
          r.candidates[i].currentInterviewStep
          == (if b.candidates[i].id == d.id then stepName else b.candidates[i].currentInterviewStep))
    && r.dragged.None?
    && |r.pending| == |b.pending| + 1
    && r.pending[..|b.pending|] == b.pending
    && IssuedRequest(b, d, stepName, r.pending[|b.pending|])
    && r.nextRequest == b.nextRequest + 1
    && r.(candidates := b.candidates, dragged := b.dragged, pending := b.pending,
          nextRequest := b.nextRequest) == b
  }

  /** `handleDrop(stepName)` up to the moment it awaits the backend. */
  function Drop(b: Board, stepName: string): (r: Board)
    // nothing dragged: nothing at all happens
    ensures b.dragged.None? ==> r == b
    // no step of that name: an error toast, the drag slot still set, no call
    ensures b.dragged.Some? && !KnownStage(b.steps, stepName) ==>
              r == b.(toastMessage := Some(StepNotFoundMessage), toastVariant := Danger,
                      timers := b.timers + 1)
    // dropped on its own stage: only the drag slot is cleared
    ensures b.dragged.Some? && KnownStage(b.steps, stepName)
            && b.dragged.value.currentInterviewStep == stepName ==>
              r == b.(dragged := None)
    // a real move: optimistic update, drag cleared, one call issued, no toast yet
    ensures b.dragged.Some? && KnownStage(b.steps, stepName)
            && b.dragged.value.currentInterviewStep != stepName ==>
              OptimisticMove(b, b.dragged.value, stepName, r)
  {
    match b.dragged
    case None => b
    case Some(d) =>
      match FindStep(b.steps, stepName)
      case None => ShowToast(b, StepNotFoundMessage, Danger)
      case Some(j) =>
        if d.currentInterviewStep == stepName then b.(dragged := None)
        else
          var previous := b.candidates;
          var request := Request(b.nextRequest, d.id, d.applicationId, b.steps[j].id, previous);
          assert IssuedRequest(b, d, stepName, request);
          b.(candidates := MoveCandidate(b.candidates, d.id, stepName),
             dragged := None,
             pending := b.pending + [request],
             nextRequest := b.nextRequest + 1)
  }

  /** Position of the in-flight call numbered `id`, if there is one. */
  function FindRequest(pending: seq<Request>, id: nat): (r: Option<nat>)
    ensures r.Some? ==> r.value < |pending| && pending[r.value].requestId == id
    ensures r.Some? ==> forall t :: 0 <= t < r.value ==> pending[t].requestId != id
    ensures r.None? <==> forall k :: 0 <= k < |pending| ==> pending[k].requestId != id
    decreases |pending|
  {
    if |pending| == 0 then None
    else if pending[0].requestId == id then Some(0)
    else
      match FindRequest(pending[1..], id)
      case None => None
      case Some(k) => Some(k + 1)
  }

  /** The in-flight calls without the one at position `k`. */
  function Without(pending: seq<Request>, k: nat): (r: seq<Request>)
    requires k < |pending|
    ensures |r| == |pending| - 1
    ensures forall t :: 0 <= t < |r| ==> r[t] == (if t < k then pending[t] else pending[t + 1])
  {
    pending[..k] + pending[k + 1..]
  }

  /** The answer of the stage-update service to call `id` arrives: on success
      a success toast and the list left as it is; on failure the list replaced
      wholesale by the call's snapshot and an error toast. A completion for a
      call that is not in flight changes nothing. */
  function Complete(b: Board, id: nat, ok: bool): (r: Board)
    ensures FindRequest(b.pending, id).None? ==> r == b
    ensures FindRequest(b.pending, id).Some? ==>
              var k := FindRequest(b.pending, id).value;
              && r.pending == Without(b.pending, k)
              && r.toastMessage == Some(if ok then MovedMessage else MoveFailedMessage)
              && r.toastVariant == (if ok then Success else Danger)
              && r.timers == b.timers + 1
              && r.candidates == (if ok then b.candidates else b.pending[k].snapshot)
              && r.steps == b.steps && r.dragged == b.dragged && r.nextRequest == b.nextRequest
  {
    match FindRequest(b.pending, id)
    case None => b
    case Some(k) =>
      var rest := b.(pending := Without(b.pending, k));
      if ok then ShowToast(rest, MovedMessage, Success)
      else ShowToast(rest.(candidates := b.pending[k].snapshot), MoveFailedMessage, Danger)
  }

  /** One scheduled auto-clear fires: it clears whatever toast is showing,
      whether or not it is the toast that scheduled it. */
  function TimerFire(b: Board): (r: Board)
    ensures b.timers > 0 ==> r.toastMessage.None? && r.timers == b.timers - 1
    ensures b.timers == 0 ==> r == b
    ensures r.(toastMessage := b.toastMessage, timers := b.timers) == b
  {
    if b.timers == 0 then b else b.(toastMessage := None, timers := b.timers - 1)
  }

  /** The toast's close button: the message is cleared, the timers are not. */
  function CloseToast(b: Board): (r: Board)
    ensures r.toastMessage.None?
    ensures r.(toastMessage := b.toastMessage) == b
  {
    b.(toastMessage := None)
  }

  /** The callbacks that reach the board. */
  datatype Event =
    | DragStartEvent(candidate: Candidate)
    | DropEvent(stepName: string)
    | CompleteEvent(requestId: nat, ok: bool)
    | TimerFireEvent
    | CloseToastEvent

  function Step(b: Board, e: Event): Board {
    match e
    case DragStartEvent(c) => DragStart(b, c)
    case DropEvent(name) => Drop(b, name)
    case CompleteEvent(id, ok) => Complete(b, id, ok)
    case TimerFireEvent => TimerFire(b)
    case CloseToastEvent => CloseToast(b)
  }

  /** The board after the events of `es`, in order. */
  function Run(b: Board, es: seq<Event>): Board
    decreases |es|
  {
    if |es| == 0 then b else Run(Step(b, es[0]), es[1..])
  }
}
