/** What the board's transitions guarantee over whole event sequences, and
    the two hazards its design leaves in: a rollback that undoes a later
    accepted move, and an old auto-clear timer that dismisses a newer toast. */
module BoardProperties {
  import opened Wrappers
  import opened KanbanTypes
  import opened Grouping
  import opened Columns
  import opened Board

  // ---- the optimistic move and its inverse ----

  /** Moving a candidate back to the stage it came from restores the list. */
  lemma MoveUndo(cs: seq<Candidate>, id: int, from: string, to: string)
    requires forall i :: 0 <= i < |cs| && cs[i].id == id ==> cs[i].currentInterviewStep == from
    ensures MoveCandidate(MoveCandidate(cs, id, to), id, from) == cs
  {
    var m := MoveCandidate(cs, id, to);
    var back := MoveCandidate(m, id, from);
    forall i | 0 <= i < |cs| ensures back[i] == cs[i] {
      assert back[i].id == m[i].id == cs[i].id;
    }
  }

  /** After the move, every entry with the dragged id is shown in the bucket
      of the target stage and in no other; every other entry stays in the
      bucket it was in. */
  lemma MoveRegroups(cs: seq<Candidate>, id: int, name: string, i: int, k: string)
    requires 0 <= i < |cs|
    ensures var m := MoveCandidate(cs, id, name);
            m[i] in Lookup(Group(m), k)
            <==> (if cs[i].id == id then k == name else cs[i] in Lookup(Group(cs), k))
  {
    var m := MoveCandidate(cs, id, name);
    GroupPartitions(m);
    GroupPartitions(cs);
    assert m[i] in m;
    assert cs[i] in cs;
    if cs[i].id != id {
      assert m[i] == cs[i];
    }
  }

  // ---- an invariant of every reachable board ----

  /** Stage of each entry of `cs` is its stage in `initial` or a known step's. */
  predicate StagesFrom(initial: seq<Candidate>, steps: seq<InterviewStep>, cs: seq<Candidate>)
    requires |cs| == |initial|
  {
    forall i :: 0 <= i < |cs| ==>
      cs[i].currentInterviewStep == initial[i].currentInterviewStep
      || KnownStage(steps, cs[i].currentInterviewStep)
  }

  /** A list the board may show: the loaded people in the loaded order, each
      at its loaded stage or at a stage some step is named after. */
  predicate Descends(initial: seq<Candidate>, steps: seq<InterviewStep>, cs: seq<Candidate>) {
    SameExceptStages(initial, cs) && StagesFrom(initial, steps, cs)
  }

  /** What every board reached from `Init(steps, initial)` satisfies: the
      list and every rollback snapshot descend from the loaded list, the steps
      never change, and every call in flight has a number already handed out. */
  predicate Inv(initial: seq<Candidate>, steps: seq<InterviewStep>, b: Board) {
    && b.steps == steps
    && Descends(initial, steps, b.candidates)
    && (forall k :: 0 <= k < |b.pending| ==> Descends(initial, steps, b.pending[k].snapshot))
    && (forall k :: 0 <= k < |b.pending| ==> b.pending[k].requestId < b.nextRequest)
  }

  lemma InitInv(steps: seq<InterviewStep>, initial: seq<Candidate>)
    ensures Inv(initial, steps, Init(steps, initial))
  {
  }

  /** A drop keeps the invariant: the moved entries go to a known step and
      the new snapshot is the current list. */
  lemma DropInv(initial: seq<Candidate>, steps: seq<InterviewStep>, b: Board, name: string)
    requires Inv(initial, steps, b)
    ensures Inv(initial, steps, Drop(b, name))
  {
    var r := Drop(b, name);
    if b.dragged.Some? && KnownStage(b.steps, name) && b.dragged.value.currentInterviewStep != name {
      assert Descends(initial, steps, r.candidates) by {
        forall i | 0 <= i < |r.candidates|
          ensures r.candidates[i].currentInterviewStep == initial[i].currentInterviewStep
                  || KnownStage(steps, r.candidates[i].currentInterviewStep)
        {
          if r.candidates[i].currentInterviewStep != b.candidates[i].currentInterviewStep {
            assert r.candidates[i].currentInterviewStep == name;
          }
        }
      }
      forall k | 0 <= k < |r.pending|
        ensures Descends(initial, steps, r.pending[k].snapshot)
        ensures r.pending[k].requestId < r.nextRequest
      {
        if k < |b.pending| {
          assert r.pending[k] == r.pending[..|b.pending|][k] == b.pending[k];
        }
      }
    }
  }

  /** An answer from the backend keeps the invariant: a rollback restores a
      snapshot that itself satisfied it. */
  lemma CompleteInv(initial: seq<Candidate>, steps: seq<InterviewStep>, b: Board, id: nat, ok: bool)
    requires Inv(initial, steps, b)
    ensures Inv(initial, steps, Complete(b, id, ok))
  {
    match FindRequest(b.pending, id) {
      case None =>
      case Some(k) =>
        var rest := Without(b.pending, k);
        forall t | 0 <= t < |rest|
          ensures Descends(initial, steps, rest[t].snapshot)
          ensures rest[t].requestId < b.nextRequest
        {
          if t < k {
            assert rest[t] == b.pending[t];
          } else {
            assert rest[t] == b.pending[t + 1];
          }
        }
        var r := Complete(b, id, ok);
        assert r.pending == rest;
        assert r.candidates == (if ok then b.candidates else b.pending[k].snapshot);
    }
  }

  /** Every callback keeps the invariant. */
  lemma StepInv(initial: seq<Candidate>, steps: seq<InterviewStep>, b: Board, e: Event)
    requires Inv(initial, steps, b)
    ensures Inv(initial, steps, Step(b, e))
  {
    match e
    case DropEvent(name) => DropInv(initial, steps, b, name);
    case CompleteEvent(id, ok) => CompleteInv(initial, steps, b, id, ok);
    case _ =>
  }

  /** Every sequence of callbacks keeps the invariant. */
  lemma {:induction false} RunInv(initial: seq<Candidate>, steps: seq<InterviewStep>, b: Board, es: seq<Event>)
    requires Inv(initial, steps, b)
    ensures Inv(initial, steps, Run(b, es))
    decreases |es|
  {
    if |es| > 0 {
      StepInv(initial, steps, b, es[0]);
      RunInv(initial, steps, Step(b, es[0]), es[1..]);
    }
  }

  /** Whatever the user and the backend do, the board keeps exactly the loaded
      candidates, in the loaded order, with only their stages changed; and a
      candidate shown in some column when the board was loaded is shown in
      some column forever after. */
  lemma NoCandidateLost(steps: seq<InterviewStep>, initial: seq<Candidate>, es: seq<Event>, i: int)
    requires 0 <= i < |initial|
    requires KnownStage(steps, initial[i].currentInterviewStep)
    ensures var b := Run(Init(steps, initial), es);
            && SameExceptStages(initial, b.candidates)
            && exists col :: 0 <= col < |BoardColumns(steps, b.candidates)|
                             && b.candidates[i] in BoardColumns(steps, b.candidates)[col].cards
  {
    InitInv(steps, initial);
    RunInv(initial, steps, Init(steps, initial), es);
    var b := Run(Init(steps, initial), es);
    assert b.candidates[i] in b.candidates;
    VisibleIffKnownStage(steps, b.candidates, b.candidates[i]);
  }

  // ---- one move, answered ----

  /** A move that the backend rejects, with no other call overlapping it,
      leaves the list exactly as it was before the drop, with an error toast. */
  lemma DropThenFailureRestores(b: Board, stepName: string)
    requires b.dragged.Some? && KnownStage(b.steps, stepName)
    requires b.dragged.value.currentInterviewStep != stepName
    requires forall k :: 0 <= k < |b.pending| ==> b.pending[k].requestId < b.nextRequest
    ensures var r := Complete(Drop(b, stepName), b.nextRequest, false);
            && r.candidates == b.candidates
            && r.pending == b.pending
            && r.toastMessage == Some(MoveFailedMessage) && r.toastVariant == Danger
            && r.dragged.None?
  {
    var d := Drop(b, stepName);
    var n := |b.pending|;
    assert d.pending[n].requestId == b.nextRequest;
    forall t | 0 <= t < n ensures d.pending[t].requestId != b.nextRequest {
      assert d.pending[t] == d.pending[..n][t] == b.pending[t];
    }
    assert Without(d.pending, n) == b.pending by {
      assert d.pending[..n] == b.pending;
    }
  }

  /** A move the backend accepts stays on the board, with a success toast. */
  lemma DropThenSuccessKeeps(b: Board, stepName: string)
    requires b.dragged.Some? && KnownStage(b.steps, stepName)
    requires b.dragged.value.currentInterviewStep != stepName
    requires forall k :: 0 <= k < |b.pending| ==> b.pending[k].requestId < b.nextRequest
    ensures var r := Complete(Drop(b, stepName), b.nextRequest, true);
            && r.candidates == MoveCandidate(b.candidates, b.dragged.value.id, stepName)
            && r.pending == b.pending
            && r.toastMessage == Some(MovedMessage) && r.toastVariant == Success
  {
    var d := Drop(b, stepName);
    var n := |b.pending|;
    var m := MoveCandidate(b.candidates, b.dragged.value.id, stepName);
    assert d.candidates == m by {
      forall i | 0 <= i < |m| ensures d.candidates[i] == m[i] {}
    }
    forall t | 0 <= t < n ensures d.pending[t].requestId != b.nextRequest {
      assert d.pending[t] == d.pending[..n][t] == b.pending[t];
    }
    assert Without(d.pending, n) == b.pending by {
      assert d.pending[..n] == b.pending;
    }
  }
}
