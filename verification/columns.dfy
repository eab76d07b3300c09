/** Column selection: the steps sorted by `orderIndex` (`sortedSteps`) and,
    for each, the bucket of candidates shown in that column. */
module Columns {
  import opened KanbanTypes
  import opened Grouping

  /** Steps in non-decreasing `orderIndex`. */
  predicate Sorted(s: seq<InterviewStep>) {
    forall i, j :: 0 <= i < j < |s| ==> s[i].orderIndex <= s[j].orderIndex
  }

  /** The steps of `s` whose `orderIndex` is `v`, in the order of `s`: the
      sort is stable when it keeps every such list as it was. */
  function WithOrder(s: seq<InterviewStep>, v: int): seq<InterviewStep>
    decreases |s|
  {
    if |s| == 0 then []
    else WithOrder(s[..|s| - 1], v) + (if s[|s| - 1].orderIndex == v then [s[|s| - 1]] else [])
  }

  /** Places `x` after every step of `s` whose `orderIndex` is not larger. */
  function Insert(s: seq<InterviewStep>, x: InterviewStep): (r: seq<InterviewStep>)
    ensures |r| == |s| + 1
    decreases |s|
  {
    if |s| == 0 || s[|s| - 1].orderIndex <= x.orderIndex then s + [x]
    else Insert(s[..|s| - 1], x) + [s[|s| - 1]]
  }

  /** Inserting loses no step and adds only `x`. */
  lemma {:induction false} InsertMultiset(s: seq<InterviewStep>, x: InterviewStep)
    ensures multiset(Insert(s, x)) == multiset(s) + multiset{x}
    decreases |s|
  {
    if |s| > 0 && s[|s| - 1].orderIndex > x.orderIndex {
      var init, last := s[..|s| - 1], s[|s| - 1];
      InsertMultiset(init, x);
      assert s == init + [last];
    }
  }

  /** No step of the insertion's result exceeds a bound that `x` and every
      step of `s` respect. */
  lemma {:induction false} InsertBound(s: seq<InterviewStep>, x: InterviewStep, bound: int)
    requires forall i :: 0 <= i < |s| ==> s[i].orderIndex <= bound
    requires x.orderIndex <= bound
    ensures forall i :: 0 <= i < |Insert(s, x)| ==> Insert(s, x)[i].orderIndex <= bound
    decreases |s|
  {
    if |s| > 0 && s[|s| - 1].orderIndex > x.orderIndex {
      InsertBound(s[..|s| - 1], x, bound);
    }
  }

  /** Inserting into a sorted list keeps it sorted. */
  lemma {:induction false} InsertSorted(s: seq<InterviewStep>, x: InterviewStep)
    requires Sorted(s)
    ensures Sorted(Insert(s, x))
    decreases |s|
  {
    if |s| > 0 && s[|s| - 1].orderIndex > x.orderIndex {
      var init, last := s[..|s| - 1], s[|s| - 1];
      InsertSorted(init, x);
      InsertBound(init, x, last.orderIndex);
    }
  }

  /** `[e]` when `e` has `orderIndex` `v`, else nothing. */
  function Tag(e: InterviewStep, v: int): seq<InterviewStep> {
    if e.orderIndex == v then [e] else []
  }

  /** `WithOrder` of a list with one more step at its end. */
  lemma WithOrderSnoc(a: seq<InterviewStep>, e: InterviewStep, v: int)
    ensures WithOrder(a + [e], v) == WithOrder(a, v) + Tag(e, v)
  {
    assert (a + [e])[..|a|] == a;
  }

  /** Inserting `x` appends it to the steps of its own `orderIndex` and leaves
      every other such list as it was. */
  lemma {:induction false} InsertStable(s: seq<InterviewStep>, x: InterviewStep, v: int)
    ensures WithOrder(Insert(s, x), v) == WithOrder(s, v) + Tag(x, v)
    decreases |s|
  {
    if |s| == 0 || s[|s| - 1].orderIndex <= x.orderIndex {
      WithOrderSnoc(s, x, v);
    } else {
      var init, last := s[..|s| - 1], s[|s| - 1];
      var m := Insert(init, x);
      assert s == init + [last];
      assert Insert(s, x) == m + [last];
      InsertStable(init, x, v);
      WithOrderSnoc(m, last, v);
      WithOrderSnoc(init, last, v);
      var wi, tx, tl := WithOrder(init, v), Tag(x, v), Tag(last, v);
      assert WithOrder(Insert(s, x), v) == (wi + tx) + tl;
      assert WithOrder(s, v) == wi + tl;
      assert tx == [] || tl == [];
      assert (wi + tx) + tl == (wi + tl) + tx;
    }
  }

  /** The program's `[...interviewSteps].sort((a, b) => a.orderIndex - b.orderIndex)`:
      an insertion sort, stable as the language's sort is. */
  function SortSteps(steps: seq<InterviewStep>): (r: seq<InterviewStep>)
    ensures |r| == |steps|
    decreases |steps|
  {
    if |steps| == 0 then []
    else Insert(SortSteps(steps[..|steps| - 1]), steps[|steps| - 1])
  }

  /** The sorted steps are in non-decreasing `orderIndex`. */
  lemma {:induction false} SortStepsSorted(steps: seq<InterviewStep>)
    ensures Sorted(SortSteps(steps))
    decreases |steps|
  {
    if |steps| > 0 {
      var init := steps[..|steps| - 1];
      SortStepsSorted(init);
      InsertSorted(SortSteps(init), steps[|steps| - 1]);
    }
  }

  /** The sorted steps are the given steps, each as often as given. */
  lemma {:induction false} SortStepsPermutes(steps: seq<InterviewStep>)
    ensures multiset(SortSteps(steps)) == multiset(steps)
    decreases |steps|
  {
    if |steps| > 0 {
      var init, last := steps[..|steps| - 1], steps[|steps| - 1];
      SortStepsPermutes(init);
      InsertMultiset(SortSteps(init), last);
      assert steps == init + [last];
    }
  }

  /** Steps of equal `orderIndex` keep their given order. */
  lemma {:induction false} SortStepsStable(steps: seq<InterviewStep>, v: int)
    ensures WithOrder(SortSteps(steps), v) == WithOrder(steps, v)
    decreases |steps|
  {
    if |steps| > 0 {
      var init, last := steps[..|steps| - 1], steps[|steps| - 1];
      var sorted := SortSteps(init);
      assert SortSteps(steps) == Insert(sorted, last);
      SortStepsStable(init, v);
      InsertStable(sorted, last, v);
      assert steps == init + [last];
      WithOrderSnoc(init, last, v);
      assert WithOrder(Insert(sorted, last), v) == WithOrder(init, v) + Tag(last, v);
    }
  }

  /** The sorted steps are exactly the given steps, in non-decreasing
      `orderIndex`, with steps of equal `orderIndex` left in their given order. */
  lemma SortStepsCorrect(steps: seq<InterviewStep>)
    ensures Sorted(SortSteps(steps))
    ensures multiset(SortSteps(steps)) == multiset(steps)
    ensures forall v :: WithOrder(SortSteps(steps), v) == WithOrder(steps, v)
  {
    SortStepsSorted(steps);
    SortStepsPermutes(steps);
    forall v ensures WithOrder(SortSteps(steps), v) == WithOrder(steps, v) {
      SortStepsStable(steps, v);
    }
  }

  /** One rendered column: its step and the cards it shows. */
  datatype Column = Column(step: InterviewStep, cards: seq<Candidate>)

  /** The steps of the columns, left to right. */
  function ColumnSteps(cols: seq<Column>): seq<InterviewStep> {
    seq(|cols|, i requires 0 <= i < |cols| => cols[i].step)
  }

  /** The rendered columns: one per step, each showing the candidates at the
      stage its step is named after, in list order (the bucket `grouped[step.name]`,
      or nothing when there is no such bucket). */
  function BoardColumns(steps: seq<InterviewStep>, cs: seq<Candidate>): (cols: seq<Column>)
    ensures |cols| == |steps|
    ensures ColumnSteps(cols) == SortSteps(steps)
    ensures forall i :: 0 <= i < |cols| ==> cols[i].cards == InStage(cs, cols[i].step.name)
  {
    var sorted := SortSteps(steps);
    var g := Group(cs);
    GroupPartitions(cs);
    seq(|sorted|, i requires 0 <= i < |sorted| => Column(sorted[i], Lookup(g, sorted[i].name)))
  }

  /** The columns are exactly the known steps, each once, in non-decreasing
      `orderIndex`. */
  lemma ColumnsOrdered(steps: seq<InterviewStep>, cs: seq<Candidate>)
    ensures multiset(ColumnSteps(BoardColumns(steps, cs))) == multiset(steps)
    ensures Sorted(ColumnSteps(BoardColumns(steps, cs)))
  {
    SortStepsCorrect(steps);
    assert ColumnSteps(BoardColumns(steps, cs)) == SortSteps(steps);
  }

  /** Every step has a column, and every column's step is a step. */
  lemma ColumnsCoverSteps(steps: seq<InterviewStep>, cs: seq<Candidate>)
    ensures forall j :: 0 <= j < |steps| ==>
              exists i :: 0 <= i < |BoardColumns(steps, cs)| && BoardColumns(steps, cs)[i].step == steps[j]
    ensures forall i :: 0 <= i < |BoardColumns(steps, cs)| ==> BoardColumns(steps, cs)[i].step in steps
  {
    var cols := BoardColumns(steps, cs);
    var colSteps := ColumnSteps(cols);
    ColumnsOrdered(steps, cs);
    forall j | 0 <= j < |steps|
      ensures exists i :: 0 <= i < |cols| && cols[i].step == steps[j]
    {
      assert steps[j] in multiset(colSteps);
      var i :| 0 <= i < |colSteps| && colSteps[i] == steps[j];
      assert cols[i].step == steps[j];
    }
    forall i | 0 <= i < |cols| ensures cols[i].step in steps {
      assert cols[i].step == colSteps[i];
      assert colSteps[i] in multiset(steps);
    }
  }

  /** A candidate at a known stage is shown, in the column of a step with
      that name. */
  lemma ShownInColumn(steps: seq<InterviewStep>, cs: seq<Candidate>, c: Candidate, j: int) returns (i: int)
    requires c in cs
    requires 0 <= j < |steps| && steps[j].name == c.currentInterviewStep
    ensures 0 <= i < |BoardColumns(steps, cs)| && BoardColumns(steps, cs)[i].step == steps[j]
    ensures c in BoardColumns(steps, cs)[i].cards
  {
    var cols := BoardColumns(steps, cs);
    ColumnsCoverSteps(steps, cs);
    i :| 0 <= i < |cols| && cols[i].step == steps[j];
    InStageMembers(cs, cols[i].step.name, c);
  }

  /** A candidate shown in a column is at the stage of that column's step,
      which is one of the steps. */
  lemma ShownAtKnownStage(steps: seq<InterviewStep>, cs: seq<Candidate>, c: Candidate, i: int)
    requires 0 <= i < |BoardColumns(steps, cs)| && c in BoardColumns(steps, cs)[i].cards
    ensures BoardColumns(steps, cs)[i].step.name == c.currentInterviewStep
    ensures KnownStage(steps, c.currentInterviewStep)
  {
    var cols := BoardColumns(steps, cs);
    ColumnsCoverSteps(steps, cs);
    InStageMembers(cs, cols[i].step.name, c);
    var j :| 0 <= j < |steps| && steps[j] == cols[i].step;
  }

  /** A candidate of the list is shown in some column exactly when its stage
      names a known step; a candidate at a stage no step is named after is in
      no rendered column. */
  lemma VisibleIffKnownStage(steps: seq<InterviewStep>, cs: seq<Candidate>, c: Candidate)
    requires c in cs
    ensures (exists i :: 0 <= i < |BoardColumns(steps, cs)| && c in BoardColumns(steps, cs)[i].cards)
            <==> KnownStage(steps, c.currentInterviewStep)
  {
    var cols := BoardColumns(steps, cs);
    if KnownStage(steps, c.currentInterviewStep) {
      var j :| 0 <= j < |steps| && steps[j].name == c.currentInterviewStep;
      var i := ShownInColumn(steps, cs, c, j);
    }
    if exists i :: 0 <= i < |cols| && c in cols[i].cards {
      var i :| 0 <= i < |cols| && c in cols[i].cards;
      ShownAtKnownStage(steps, cs, c, i);
    }
  }
}
