/** The two hazards the board's design leaves in, stated as properties of the
    model as it stands: neither is corrected here. */
module Hazards {
  import opened Wrappers
  import opened KanbanTypes
  import opened Board

  /** The answer to call `id` when call `id` sits at position `k` of the
      in-flight list and no earlier position carries that number. */
  lemma CompleteAt(b: Board, id: nat, ok: bool, k: nat)
    requires k < |b.pending| && b.pending[k].requestId == id
    requires forall t :: 0 <= t < k ==> b.pending[t].requestId != id
    ensures Complete(b, id, ok).pending == Without(b.pending, k)
    ensures Complete(b, id, ok).candidates == (if ok then b.candidates else b.pending[k].snapshot)
    ensures Complete(b, id, ok).toastVariant == (if ok then Success else Danger)
    ensures Complete(b, id, ok).toastMessage == Some(if ok then MovedMessage else MoveFailedMessage)
  {
    assert FindRequest(b.pending, id) == Some(k);
  }

  /** A drop that moves `d` appends one call, numbered `b.nextRequest`, for
      `d` at the first step named `name`, with the current list as snapshot. */
  lemma MovingDrop(b: Board, d: Candidate, name: string)
    requires KnownStage(b.steps, name) && d.currentInterviewStep != name
    ensures var r := Drop(DragStart(b, d), name);
            && |r.pending| == |b.pending| + 1
            && r.pending == b.pending + [r.pending[|b.pending|]]
            && r.pending[|b.pending|].requestId == b.nextRequest
            && r.pending[|b.pending|].candidateId == d.id
            && r.pending[|b.pending|].snapshot == b.candidates
            && (exists j :: IsFirstNamed(b.steps, name, j) && r.pending[|b.pending|].stepId == b.steps[j].id)
            && r.nextRequest == b.nextRequest + 1
            && r.steps == b.steps
            && SameExceptStages(b.candidates, r.candidates)
            && (forall i :: 0 <= i < |b.candidates| && b.candidates[i].id == d.id ==>
                  r.candidates[i].currentInterviewStep == name)
            && (forall i :: 0 <= i < |b.candidates| && b.candidates[i].id != d.id ==>
                  r.candidates[i].currentInterviewStep == b.candidates[i].currentInterviewStep)
  {
    var b' := DragStart(b, d);
    var r := Drop(b', name);
    assert r.pending == r.pending[..|b.pending|] + [r.pending[|b.pending|]];
  }

  /** Two calls in flight at the end of the list, numbered `n` then `n + 1`,
      every earlier call numbered below `n`. */
  predicate LastTwoInFlight(b: Board, r1: Request, r2: Request) {
    && |b.pending| >= 2
    && b.pending[|b.pending| - 2] == r1 && b.pending[|b.pending| - 1] == r2
    && r2.requestId == r1.requestId + 1
    && forall t :: 0 <= t < |b.pending| - 2 ==> b.pending[t].requestId < r1.requestId
  }

  /** The later call is accepted first, then the earlier one is rejected:
      the list ends up as the earlier call's snapshot. */
  lemma LaterAcceptedThenEarlierRejected(b2: Board, r1: Request, r2: Request)
    requires LastTwoInFlight(b2, r1, r2)
    ensures Complete(Complete(b2, r1.requestId + 1, true), r1.requestId, false).candidates == r1.snapshot
  {
    var n := r1.requestId;
    var p := |b2.pending| - 2;
    CompleteAt(b2, n + 1, true, p + 1);
    var b3 := Complete(b2, n + 1, true);
    assert b3.pending == Without(b2.pending, p + 1);
    forall t | 0 <= t <= p ensures b3.pending[t] == b2.pending[t] {}
    CompleteAt(b3, n, false, p);
  }

  /** The earlier call is rejected first, then the later one is accepted:
      the list again ends up as the earlier call's snapshot. */
  lemma EarlierRejectedThenLaterAccepted(b2: Board, r1: Request, r2: Request)
    requires LastTwoInFlight(b2, r1, r2)
    ensures Complete(Complete(b2, r1.requestId, false), r1.requestId + 1, true).candidates == r1.snapshot
  {
    var n := r1.requestId;
    var p := |b2.pending| - 2;
    CompleteAt(b2, n, false, p);
    var b3 := Complete(b2, n, false);
    assert b3.candidates == r1.snapshot;
    assert b3.pending == Without(b2.pending, p);
    forall t | 0 <= t < p ensures b3.pending[t] == b2.pending[t] {}
    assert b3.pending[p] == r2;
    CompleteAt(b3, n + 1, true, p);
  }

  /** Two moves issued one after the other leave their two calls last in
      the in-flight list, the earlier one holding the list from before both. */
  lemma TwoMovesInFlight(b0: Board, a: Candidate, ta: string, c: Candidate, tc: string)
    returns (r1: Request, r2: Request)
    requires KnownStage(b0.steps, ta) && a.currentInterviewStep != ta
    requires KnownStage(b0.steps, tc) && c.currentInterviewStep != tc
    requires forall k :: 0 <= k < |b0.pending| ==> b0.pending[k].requestId < b0.nextRequest
    ensures
      var b2 := Drop(DragStart(Drop(DragStart(b0, a), ta), c), tc);
      && |b2.pending| == |b0.pending| + 2
      && b2.pending[|b0.pending|] == r1 && b2.pending[|b0.pending| + 1] == r2
      && LastTwoInFlight(b2, r1, r2)
      && r1.requestId == b0.nextRequest
      && r1.snapshot == b0.candidates
  {
    var p := |b0.pending|;
    var b1 := Drop(DragStart(b0, a), ta);
    MovingDrop(b0, a, ta);
    var b2 := Drop(DragStart(b1, c), tc);
    MovingDrop(b1, c, tc);
    assert b2.pending == b0.pending + [b1.pending[p], b2.pending[p + 1]];
    forall t | 0 <= t < p ensures b2.pending[t].requestId < b0.nextRequest {
      assert b2.pending[t] == b0.pending[t];
    }
    r1, r2 := b2.pending[p], b2.pending[p + 1];
  }

  /** Two overlapping moves, `a` to `ta` then `c` to `tc`, both issued before
      either call answers: both calls are in flight, the earlier one holding
      the list from before BOTH moves, the later one asking the backend to put
      `c` at the first step named `tc`, and `c` is shown at `tc`. */
  lemma OverlappingMovesInFlight(b0: Board, a: Candidate, ta: string, c: Candidate, tc: string)
    requires KnownStage(b0.steps, ta) && a.currentInterviewStep != ta
    requires KnownStage(b0.steps, tc) && c.currentInterviewStep != tc
    requires forall k :: 0 <= k < |b0.pending| ==> b0.pending[k].requestId < b0.nextRequest
    ensures
      var b2 := Drop(DragStart(Drop(DragStart(b0, a), ta), c), tc);
      var p := |b0.pending|;
      && |b2.pending| == p + 2
      && b2.pending[p].requestId == b0.nextRequest
      && b2.pending[p].snapshot == b0.candidates
      && b2.pending[p + 1].requestId == b0.nextRequest + 1
      && b2.pending[p + 1].candidateId == c.id
      && (exists j :: IsFirstNamed(b0.steps, tc, j) && b2.pending[p + 1].stepId == b0.steps[j].id)
      && (forall i :: 0 <= i < |b0.candidates| && b0.candidates[i].id == c.id ==>
            b2.candidates[i].currentInterviewStep == tc)
  {
    var b1 := Drop(DragStart(b0, a), ta);
    var r1, r2 := TwoMovesInFlight(b0, a, ta, c, tc);
    MovingDrop(b1, c, tc);
    MovingDrop(b0, a, ta);
    forall i | 0 <= i < |b0.candidates| && b0.candidates[i].id == c.id
      ensures Drop(DragStart(b1, c), tc).candidates[i].currentInterviewStep == tc
    {
      assert b1.candidates[i].id == c.id;
    }
  }

  /** The same two overlapping moves, answered out of order: the backend
      accepts the later call first, then rejects the earlier one. The
      rejection restores the list from before BOTH moves, so `c` is shown back
      at its old stage although the backend has accepted its move. */
  lemma EarlierFailureUndoesLaterMove(b0: Board, a: Candidate, ta: string, c: Candidate, tc: string)
    requires KnownStage(b0.steps, ta) && a.currentInterviewStep != ta
    requires KnownStage(b0.steps, tc) && c.currentInterviewStep != tc
    requires forall k :: 0 <= k < |b0.pending| ==> b0.pending[k].requestId < b0.nextRequest
    ensures
      var n := b0.nextRequest;
      var b2 := Drop(DragStart(Drop(DragStart(b0, a), ta), c), tc);
      Complete(Complete(b2, n + 1, true), n, false).candidates == b0.candidates
  {
    var b2 := Drop(DragStart(Drop(DragStart(b0, a), ta), c), tc);
    var r1, r2 := TwoMovesInFlight(b0, a, ta, c, tc);
    LaterAcceptedThenEarlierRejected(b2, r1, r2);
  }

  /** The same two moves answered in the order they were issued: the
      earlier call is rejected, then the later one accepted. The later move is
      lost all the same, because the rollback already discarded it. */
  lemma EarlierFailureUndoesLaterMoveInOrder(b0: Board, a: Candidate, ta: string, c: Candidate, tc: string)
    requires KnownStage(b0.steps, ta) && a.currentInterviewStep != ta
    requires KnownStage(b0.steps, tc) && c.currentInterviewStep != tc
    requires forall k :: 0 <= k < |b0.pending| ==> b0.pending[k].requestId < b0.nextRequest
    ensures
      var n := b0.nextRequest;
      var b2 := Drop(DragStart(Drop(DragStart(b0, a), ta), c), tc);
      Complete(Complete(b2, n, false), n + 1, true).candidates == b0.candidates
  {
    var b2 := Drop(DragStart(Drop(DragStart(b0, a), ta), c), tc);
    var r1, r2 := TwoMovesInFlight(b0, a, ta, c, tc);
    EarlierRejectedThenLaterAccepted(b2, r1, r2);
  }

  /** Auto-clear timers are never cancelled: when an older toast's timer is
      still pending and a new toast is shown (here, by a drop on a name no step
      has), the older timer's firing dismisses the new toast while the new
      toast's own timer is still pending. */
  lemma StaleTimerDismissesNewToast(b: Board, stepName: string)
    requires b.timers > 0
    requires b.dragged.Some? && !KnownStage(b.steps, stepName)
    ensures Drop(b, stepName).toastMessage == Some(StepNotFoundMessage)
    ensures TimerFire(Drop(b, stepName)).toastMessage.None?
    ensures TimerFire(Drop(b, stepName)).timers > 0
  {
  }

  /** The same hazard on the path the user does reach: two backend answers
      within the auto-clear delay. The earlier answer's timer, still pending,
      clears the toast of the later answer while that toast's own timer is
      still pending. */
  lemma StaleTimerDismissesAnswerToast(b: Board, id: nat, ok: bool, k: nat)
    requires b.timers > 0
    requires k < |b.pending| && b.pending[k].requestId == id
    ensures Complete(b, id, ok).toastMessage == Some(if ok then MovedMessage else MoveFailedMessage)
    ensures TimerFire(Complete(b, id, ok)).toastMessage.None?
    ensures TimerFire(Complete(b, id, ok)).timers > 0
  {
    CompleteShowsToast(b, id, ok, k);
  }

  /** An answer to a call that is in flight always shows its toast. */
  lemma CompleteShowsToast(b: Board, id: nat, ok: bool, k: nat)
    requires k < |b.pending| && b.pending[k].requestId == id
    ensures Complete(b, id, ok).toastMessage == Some(if ok then MovedMessage else MoveFailedMessage)
  {
    var j := FindRequest(b.pending, id);
    assert j.Some?;
    CompleteAt(b, id, ok, j.value);
  }

  /** Only the latest toast is ever visible: a second answer from the backend
      replaces the first one's toast rather than adding to it. */
  lemma LatestToastWins(b: Board, id1: nat, ok1: bool, id2: nat, ok2: bool, k: nat)
    requires k < |b.pending| && b.pending[k].requestId == id2 && id2 != id1
    ensures Complete(Complete(b, id1, ok1), id2, ok2).toastMessage
            == Some(if ok2 then MovedMessage else MoveFailedMessage)
  {
    var b1 := Complete(b, id1, ok1);
    match FindRequest(b.pending, id1) {
      case None =>
        CompleteShowsToast(b1, id2, ok2, k);
      case Some(j) =>
        var k' := if k < j then k else k - 1;
        assert b1.pending == Without(b.pending, j);
        assert k != j;
        assert b1.pending[k'] == b.pending[k];
        CompleteShowsToast(b1, id2, ok2, k');
    }
  }
}
