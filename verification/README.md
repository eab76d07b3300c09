# Kanban board stage transitions, modelled in Dafny

This project models the core of a recruiting-pipeline kanban board. The board shows the
candidates for one job position as cards in columns, one column per interview step. A
recruiter drags a card onto another column to move the candidate to that step. The model
covers the board component `KanbanBoard.tsx` and its records in `kanban.types.ts`:

- **Grouping.** The candidate list is partitioned into buckets keyed by each candidate's
  `currentInterviewStep`, which is a step *name*. See `grouping.dfy`, module `Grouping`.
- **Columns.** The steps are sorted by `orderIndex`. Each step's column shows the bucket
  named after it, or nothing. See `columns.dfy`, module `Columns`.
- **Drag and drop state machine.** See `board.dfy`, module `Board`. The board owns:
  - the candidate list;
  - a single drag slot;
  - the toast (message and variant) and the auto-clear timers it has started;
  - the backend stage-update calls still in flight.

  Each callback is a pure function from board to board: `DragStart`, `Drop`, `Complete`
  (the backend's answer), `TimerFire` and `CloseToast`. `Run` applies a sequence of them.
- **Properties.** An invariant every reachable board keeps, the rollback guarantees, and
  two hazards the design leaves in. See `board_properties.dfy` and `hazards.dfy`.

Modelling choices:

- **Backend calls.** The stage-update service is not part of this model. Each call becomes
  a `Request` in `pending`. It carries the call's arguments (candidate id, application id,
  step id) and the list as it was just before the optimistic move. The service's answer is
  an explicit `Complete(requestId, ok)` event, so any answer can arrive in any order.
- **Timers.** Every toast schedules a 3-second auto-clear, and nothing ever cancels one.
  `timers` counts the clears that have not fired yet. `TimerFire` is one of them firing: it
  clears whatever toast is showing at that moment.
- **Sorting.** The steps are sorted with the language's stable sort. It is modelled as a
  stable insertion sort on `orderIndex`.
- **Drops.** A drop acts on the board's current state.
- **Field types.** Identifiers are unbounded integers, since they are only compared.
  `averageScore` is kept as an opaque integer.
- **Toast text.** The messages are the program's Spanish strings, with the check and cross
  characters written as escapes.

## Model

| member | source | states |
|---|---|---|
| Grouping.GroupBucket | frontend/src/components/KanbanBoard.tsx:23-33 | the walk that pushes each candidate onto the bucket named by its stage builds, for every name, exactly the candidates at that stage in list order (or no bucket when none is) |
| Grouping.GroupPartitions | frontend/src/components/KanbanBoard.tsx:23-33 | the buckets' keys are exactly the stages met; every candidate of the list is in the bucket of its own stage and in no other |
| Grouping.GroupMembership | frontend/src/components/KanbanBoard.tsx:25-30 | a candidate of the list is in a bucket if and only if the bucket's key is its own stage |
| Grouping.InStageMembers | frontend/src/components/KanbanBoard.tsx:25-30 | a candidate is in the bucket for a name exactly when it is in the list and at that stage |
| Grouping.GroupKeepsOrder | frontend/src/components/KanbanBoard.tsx:25-30 | each bucket lists candidates at strictly increasing positions of the input, and those positions are exactly the ones whose stage is the bucket's key, so relative order is kept |
| Grouping.StageOrderKeys | frontend/src/components/KanbanBoard.tsx:27-29 | a bucket is created once, the first time its stage is met: the first-seen stage order has no repeats and names exactly the buckets |
| Grouping.GroupSizes | frontend/src/components/KanbanBoard.tsx:23-33 | the bucket sizes, summed over the keys, equal the input length: nothing lost, nothing counted twice |
| Columns.SortStepsCorrect | frontend/src/components/KanbanBoard.tsx:86 | the sorted steps are a permutation of the steps, in non-decreasing orderIndex, with steps of equal orderIndex kept in their given order |
| Columns.BoardColumns | frontend/src/components/KanbanBoard.tsx:86-108 | one column per step, in the order of the stable sort by orderIndex, each showing exactly the candidates at the stage named after its step, in list order (empty when no bucket exists) |
| Columns.ColumnsOrdered | frontend/src/components/KanbanBoard.tsx:86-108 | the columns' steps are exactly the known steps, each as often as given, in non-decreasing orderIndex |
| Columns.ShownInColumn | frontend/src/components/KanbanBoard.tsx:104-108 | a candidate whose stage is some step's name is shown in that step's column |
| Columns.ShownAtKnownStage | frontend/src/components/KanbanBoard.tsx:104-108 | a candidate shown in a column is at the stage named by that column's step |
| Columns.VisibleIffKnownStage | frontend/src/components/KanbanBoard.tsx:104-108 | a candidate is shown in some column if and only if its stage names a known step; one at an unknown stage is in no rendered column |
| Board.Init | frontend/src/components/KanbanBoard.tsx:18-21 | the board starts with the loaded list, nothing dragged, no toast and nothing in flight |
| Board.FindStep | frontend/src/components/KanbanBoard.tsx:42 | the target step found is the first step with that name; none is found exactly when no step has the name |
| Board.MoveCandidate | frontend/src/components/KanbanBoard.tsx:60-64 | the optimistic update keeps length, order and every non-stage field; entries with the dragged id, and only those, get the target stage |
| Board.DragStart | frontend/src/components/KanbanBoard.tsx:35-37 | the drag slot holds the candidate just picked up, replacing any earlier one; nothing else changes |
| Board.Drop | frontend/src/components/KanbanBoard.tsx:39-73 | with nothing dragged, the board is unchanged. On an unknown step name: danger toast and timer, drag still set, list and calls unchanged. On the candidate's own stage: only the drag is cleared. Otherwise: the optimistic move, drag cleared, one call for (id, applicationId, first matching step's id) with the pre-drop snapshot, toast untouched |
| Board.Complete | frontend/src/components/KanbanBoard.tsx:68-83 | a success answer leaves the list and shows a success toast. A failure replaces the list with that call's snapshot and shows a danger toast. Either way the call leaves the in-flight list and a timer starts |
| Board.TimerFire | frontend/src/components/KanbanBoard.tsx:46 | a pending auto-clear clears whatever toast is showing and changes nothing else |
| Board.CloseToast | frontend/src/components/KanbanBoard.tsx:94 | the close button clears the message and leaves the timers running |
| BoardProperties.MoveUndo | frontend/src/components/KanbanBoard.tsx:60-64 | moving the dragged id back to the stage it came from restores the list exactly |
| BoardProperties.MoveRegroups | frontend/src/components/KanbanBoard.tsx:60-65 | after the optimistic move, the dragged candidate's entries are in the target bucket only; every other entry stays in the bucket it was in |
| BoardProperties.InitInv | frontend/src/components/KanbanBoard.tsx:18 | the freshly loaded board satisfies the invariant |
| BoardProperties.DropInv | frontend/src/components/KanbanBoard.tsx:56-73 | a drop keeps the invariant: moved entries go to a known step, and the new snapshot is the current list |
| BoardProperties.CompleteInv | frontend/src/components/KanbanBoard.tsx:74-82 | an answer keeps the invariant: a rollback restores a snapshot that itself satisfies it |
| BoardProperties.StepInv | frontend/src/components/KanbanBoard.tsx:35-84 | every callback keeps the invariant |
| BoardProperties.RunInv | frontend/src/components/KanbanBoard.tsx:35-84 | every sequence of callbacks keeps the invariant |
| BoardProperties.NoCandidateLost | frontend/src/components/KanbanBoard.tsx:18-84 | whatever the user and backend do, the list keeps the loaded candidates in loaded order with only stages changed, and a candidate visible at load stays visible |
| BoardProperties.DropThenFailureRestores | frontend/src/components/KanbanBoard.tsx:57-82 | a rejected move with no other call overlapping returns the list to exactly its pre-drop state, clears the drag and shows a danger toast |
| BoardProperties.DropThenSuccessKeeps | frontend/src/components/KanbanBoard.tsx:60-76 | an accepted move stays on the board as optimistically applied, with a success toast |
| Hazards.CompleteAt | frontend/src/components/KanbanBoard.tsx:68-83 | the answer to the first in-flight call with a given number removes that call and, on failure, restores that call's snapshot |
| Hazards.MovingDrop | frontend/src/components/KanbanBoard.tsx:56-73 | a drag then a drop on another known stage appends one call for the dragged id and first matching step, holding the current list, and moves exactly that id's entries |
| Hazards.LaterAcceptedThenEarlierRejected | frontend/src/components/KanbanBoard.tsx:74-82 | with two calls in flight, accepting the later one and then rejecting the earlier one leaves the earlier call's snapshot |
| Hazards.EarlierRejectedThenLaterAccepted | frontend/src/components/KanbanBoard.tsx:74-82 | with two calls in flight, rejecting the earlier one and then accepting the later one leaves the earlier call's snapshot |
| Hazards.TwoMovesInFlight | frontend/src/components/KanbanBoard.tsx:56-73 | two moves issued back to back leave two calls last in flight, numbered in order, the first holding the list from before both |
| Hazards.OverlappingMovesInFlight | frontend/src/components/KanbanBoard.tsx:56-73 | while both calls are in flight, the later one targets the second candidate at the first step of that name, and that candidate is shown there |
| Hazards.EarlierFailureUndoesLaterMove | frontend/src/components/KanbanBoard.tsx:57-82 | if the later call is accepted first and the earlier one is then rejected, the list returns to its state before both moves; the accepted move is silently undone |
| Hazards.EarlierFailureUndoesLaterMoveInOrder | frontend/src/components/KanbanBoard.tsx:57-82 | answers in issue order lose the later accepted move the same way |
| Hazards.StaleTimerDismissesNewToast | frontend/src/components/KanbanBoard.tsx:44-46 | an older toast's pending timer clears a newly shown unknown-step toast while the new toast's own timer is still pending |
| Hazards.StaleTimerDismissesAnswerToast | frontend/src/components/KanbanBoard.tsx:74-82 | when two backend answers come within the delay, the earlier one's pending timer clears the later answer's toast while the later toast's own timer is still pending |
| Hazards.CompleteShowsToast | frontend/src/components/KanbanBoard.tsx:74-82 | an answer to a call in flight always shows its success or danger message |
| Hazards.LatestToastWins | frontend/src/components/KanbanBoard.tsx:74-82 | after two answers, only the second answer's message is visible |

## Left out

- React rendering is not modelled: hooks, `useMemo`, JSX layout, the column component's drag-over highlight and the candidate card. Only the values they read are modelled: the grouped buckets, the sorted columns and the toast.
- The page that loads the steps and candidates is not part of this model, and neither are its HTTP service and the stage-update service. Loading is replaced by the arguments of `Init`. The update call is an entry in `pending` whose outcome arrives as a `Complete` event.
- The 3-second delay of the auto-clear is not modelled. Only the order of the timer events is kept.
- React's stale closures are not modelled: every drop reads the board's current state.
- `averageScore` is a floating-point number in the program. It is an opaque integer here because no transition reads it; the card's rounding of it is presentation only.
- A `Complete` event for a call not in flight, and a `TimerFire` with no timer pending, change nothing. The program cannot produce either one.
- No toast cancels an earlier auto-clear timer: lines 46, 76 and 82 of `KanbanBoard.tsx` schedule one with `setTimeout`, and nothing ever clears one, not even the close button at line 94. The model keeps every timer, and `Hazards.StaleTimerDismissesAnswerToast` states the consequence.
- The failure variant is Bootstrap's `danger`, and the model's `Danger` stands for it.
- The overlapping-request rollback is modelled as written, not hardened with per-request sequencing. `Hazards.EarlierFailureUndoesLaterMove` states the consequence.
- Grouping.GroupBucket, Columns.BoardColumns: the program keeps the buckets in a plain object, which inherits the members of `Object.prototype`. A stage named after one of them, such as `constructor`, `toString` or `__proto__`, makes the program throw. At line 30 the push goes to the inherited member, not to a fresh bucket. At line 108 a column gets a function instead of a list. The model treats such names as ordinary names.
- `orderIndex` is a JavaScript number, and the sort at line 86 subtracts two of them. The model makes it an integer. Fractional values are left out, and so is `NaN`, which makes the comparator inconsistent and the order engine-dependent.
- Hazards.StaleTimerDismissesNewToast: uses the unknown-step toast, which no drag from a rendered column reaches, because every column's name comes from the steps. `Hazards.StaleTimerDismissesAnswerToast` states the same hazard for a backend answer's toast.
- If two steps share a name, a candidate at that name is shown in both columns, and a drop on either targets the first step's id. The model reproduces this and proves nothing more about it.
