/** The board's partition of the candidate list into per-stage buckets
    (`groupedCandidates` in KanbanBoard.tsx). */
module Grouping {
  import opened KanbanTypes

  type Buckets = map<string, seq<Candidate>>

  /** The bucket for `name`, or the empty list when there is none: what a
      column reads with `grouped[step.name] || []`. */
  function Lookup(g: Buckets, name: string): seq<Candidate> {
    if name in g then g[name] else []
  }

  /** The set of stage names the candidates of `cs` are at. */
  function Stages(cs: seq<Candidate>): set<string> {
    set i | 0 <= i < |cs| :: cs[i].currentInterviewStep
  }

  /** Grouping as the program does it: walk the list from the front and push
      each candidate onto the bucket named by its stage, creating the bucket
      the first time the name is met. Written with the LAST candidate as the
      one pushed, so that a step of the recursion is one iteration of the walk. */
  function Group(cs: seq<Candidate>): (g: Buckets)
    decreases |cs|
  {
    if |cs| == 0 then map[]
    else
      var g := Group(cs[..|cs| - 1]);
      var c := cs[|cs| - 1];
      g[c.currentInterviewStep := Lookup(g, c.currentInterviewStep) + [c]]
  }

  /** Reference definition of one bucket: the candidates of `cs` at stage
      `name`, in the order they appear in `cs`. */
  function InStage(cs: seq<Candidate>, name: string): seq<Candidate>
    decreases |cs|
  {
    if |cs| == 0 then []
    else
      InStage(cs[..|cs| - 1], name)
      + (if cs[|cs| - 1].currentInterviewStep == name then [cs[|cs| - 1]] else [])
  }

  /** A candidate is in the bucket for `name` exactly when it is in the list
      and at stage `name`. */
  lemma {:induction false} InStageMembers(cs: seq<Candidate>, name: string, c: Candidate)
    ensures c in InStage(cs, name) <==> c in cs && c.currentInterviewStep == name
    decreases |cs|
  {
    if |cs| > 0 {
      var init := cs[..|cs| - 1];
      InStageMembers(init, name, c);
      assert cs == init + [cs[|cs| - 1]];
    }
  }

  /** The bucket for `name` is non-empty exactly when some candidate is at `name`. */
  lemma {:induction false} InStageEmpty(cs: seq<Candidate>, name: string)
    ensures InStage(cs, name) == [] <==> name !in Stages(cs)
    decreases |cs|
  {
    if |cs| > 0 {
      var init := cs[..|cs| - 1];
      InStageEmpty(init, name);
      assert Stages(cs) == Stages(init) + {cs[|cs| - 1].currentInterviewStep} by {
        forall x | x in Stages(cs)
          ensures x in Stages(init) + {cs[|cs| - 1].currentInterviewStep}
        {
          var i :| 0 <= i < |cs| && cs[i].currentInterviewStep == x;
          if i < |cs| - 1 { assert init[i] == cs[i]; }
        }
        forall x | x in Stages(init)
          ensures x in Stages(cs)
        {
          var i :| 0 <= i < |init| && init[i].currentInterviewStep == x;
          assert cs[i] == init[i];
        }
      }
    }
  }

  /** Every bucket the walk builds is exactly the reference bucket, and a
      bucket exists exactly for the stages that occur in the list. */
  lemma {:induction false} GroupBucket(cs: seq<Candidate>, name: string)
    ensures Lookup(Group(cs), name) == InStage(cs, name)
    ensures name in Group(cs) <==> name in Stages(cs)
    decreases |cs|
  {
    InStageEmpty(cs, name);
    if |cs| > 0 {
      var init := cs[..|cs| - 1];
      GroupBucket(init, name);
      InStageEmpty(init, name);
    }
  }

  /** A candidate of the list is in the bucket for `name` exactly when its
      own stage is `name`. */
  lemma GroupMembership(cs: seq<Candidate>, name: string, c: Candidate)
    requires c in cs
    ensures c in Lookup(Group(cs), name) <==> c.currentInterviewStep == name
  {
    GroupBucket(cs, name);
    InStageMembers(cs, name, c);
  }

  /** Grouping puts each candidate of the list into the bucket keyed by its
      own stage and into no other bucket; the keys are exactly the stages met. */
  lemma GroupPartitions(cs: seq<Candidate>)
    ensures Group(cs).Keys == Stages(cs)
    ensures forall name :: Lookup(Group(cs), name) == InStage(cs, name)
    ensures forall name, c :: c in cs ==>
              (c in Lookup(Group(cs), name) <==> c.currentInterviewStep == name)
  {
    forall name ensures Lookup(Group(cs), name) == InStage(cs, name)
                  && (name in Group(cs) <==> name in Stages(cs))
    {
      GroupBucket(cs, name);
    }
    forall name, c | c in cs
      ensures c in Lookup(Group(cs), name) <==> c.currentInterviewStep == name
    {
      InStageMembers(cs, name, c);
    }
  }

  /** The positions in `cs` of the candidates at stage `name`, in increasing
      order. */
  function StageIndices(cs: seq<Candidate>, name: string): seq<nat>
    decreases |cs|
  {
    if |cs| == 0 then []
    else
      var n := |cs| - 1;
      StageIndices(cs[..n], name) + (if cs[n].currentInterviewStep == name then [n] else [])
  }

  /** The positions are increasing and pick out the bucket, entry by entry. */
  lemma {:induction false} StageIndicesPick(cs: seq<Candidate>, name: string)
    ensures var idx := StageIndices(cs, name);
            && |idx| == |InStage(cs, name)|
            && (forall t :: 0 <= t < |idx| ==> idx[t] < |cs| && cs[idx[t]] == InStage(cs, name)[t])
            && (forall t, u :: 0 <= t < u < |idx| ==> idx[t] < idx[u])
    decreases |cs|
  {
    if |cs| > 0 {
      var n := |cs| - 1;
      StageIndicesPick(cs[..n], name);
      var prev := StageIndices(cs[..n], name);
      assert forall t :: 0 <= t < |prev| ==> prev[t] < n && cs[prev[t]] == cs[..n][prev[t]];
    }
  }

  /** The positions are exactly those whose candidate is at stage `name`. */
  lemma {:induction false} StageIndicesComplete(cs: seq<Candidate>, name: string, i: int)
    requires 0 <= i < |cs|
    ensures i in StageIndices(cs, name) <==> cs[i].currentInterviewStep == name
    decreases |cs|
  {
    var n := |cs| - 1;
    StageIndicesBelow(cs[..n], name);
    if i < n {
      StageIndicesComplete(cs[..n], name, i);
      assert cs[..n][i] == cs[i];
    } else {
      assert n !in StageIndices(cs[..n], name);
    }
  }

  /** Every position listed is a position of `cs`. */
  lemma {:induction false} StageIndicesBelow(cs: seq<Candidate>, name: string)
    ensures forall t :: 0 <= t < |StageIndices(cs, name)| ==> StageIndices(cs, name)[t] < |cs|
    decreases |cs|
  {
    if |cs| > 0 {
      StageIndicesBelow(cs[..|cs| - 1], name);
    }
  }

  /** Within each bucket, candidates keep their relative order from the input:
      the bucket is the list of candidates at strictly increasing positions of
      `cs` that are exactly the positions whose stage is the bucket's key. */
  lemma GroupKeepsOrder(cs: seq<Candidate>, name: string)
    ensures var bucket := Lookup(Group(cs), name);
            exists idx: seq<nat> ::
              && |idx| == |bucket|
              && (forall t :: 0 <= t < |idx| ==> idx[t] < |cs| && cs[idx[t]] == bucket[t])
              && (forall t, u :: 0 <= t < u < |idx| ==> idx[t] < idx[u])
              && (forall i :: 0 <= i < |cs| ==> (i in idx <==> cs[i].currentInterviewStep == name))
  {
    GroupBucket(cs, name);
    StageIndicesPick(cs, name);
    var idx := StageIndices(cs, name);
    forall i | 0 <= i < |cs| ensures i in idx <==> cs[i].currentInterviewStep == name {
      StageIndicesComplete(cs, name, i);
    }
    assert |idx| == |Lookup(Group(cs), name)|;
  }

  /** The stages of `cs` in order of first appearance: the order in which the
      walk creates the buckets. */
  function StageOrder(cs: seq<Candidate>): (keys: seq<string>)
    decreases |cs|
  {
    if |cs| == 0 then []
    else
      var keys := StageOrder(cs[..|cs| - 1]);
      var k := cs[|cs| - 1].currentInterviewStep;
      if k in keys then keys else keys + [k]
  }

  /** No key twice. */
  predicate Distinct(keys: seq<string>) {
    forall i, j :: 0 <= i < j < |keys| ==> keys[i] != keys[j]
  }

  /** The buckets are created once each, for exactly the stages met. */
  lemma {:induction false} StageOrderKeys(cs: seq<Candidate>)
    ensures Distinct(StageOrder(cs))
    ensures forall k :: k in StageOrder(cs) <==> k in Group(cs)
    decreases |cs|
  {
    if |cs| > 0 {
      StageOrderKeys(cs[..|cs| - 1]);
    }
  }

  /** Sum of the sizes of the buckets named by `keys`. */
  function SumSizes(g: Buckets, keys: seq<string>): nat
    decreases |keys|
  {
    if |keys| == 0 then 0
    else SumSizes(g, keys[..|keys| - 1]) + |Lookup(g, keys[|keys| - 1])|
  }

  /** Changing a bucket whose key is not listed does not change the sum. */
  lemma {:induction false} SumSizesFrame(g: Buckets, keys: seq<string>, k: string, v: seq<Candidate>)
    requires k !in keys
    ensures SumSizes(g[k := v], keys) == SumSizes(g, keys)
    decreases |keys|
  {
    if |keys| > 0 {
      SumSizesFrame(g, keys[..|keys| - 1], k, v);
    }
  }

  /** Changing the bucket of a key listed once changes the sum by the change
      in that bucket's size. */
  lemma {:induction false} SumSizesUpdate(g: Buckets, keys: seq<string>, k: string, v: seq<Candidate>)
    requires Distinct(keys) && k in keys
    ensures SumSizes(g[k := v], keys) + |Lookup(g, k)| == SumSizes(g, keys) + |v|
    decreases |keys|
  {
    var init, last := keys[..|keys| - 1], keys[|keys| - 1];
    if last == k {
      assert k !in init;
      SumSizesFrame(g, init, k, v);
    } else {
      assert k in init by {
        var i :| 0 <= i < |keys| && keys[i] == k;
        assert init[i] == k;
      }
      SumSizesUpdate(g, init, k, v);
    }
  }

  /** The bucket sizes add up to the length of the input: no candidate is lost
      or counted twice. */
  lemma {:induction false} GroupSizes(cs: seq<Candidate>)
    ensures Distinct(StageOrder(cs))
    ensures forall k :: k in StageOrder(cs) <==> k in Group(cs)
    ensures SumSizes(Group(cs), StageOrder(cs)) == |cs|
    decreases |cs|
  {
    StageOrderKeys(cs);
    if |cs| > 0 {
      var init := cs[..|cs| - 1];
      var g, keys := Group(init), StageOrder(init);
      var c := cs[|cs| - 1];
      var k := c.currentInterviewStep;
      var v := Lookup(g, k) + [c];
      GroupSizes(init);
      if k in keys {
        SumSizesUpdate(g, keys, k, v);
      } else {
        SumSizesFrame(g, keys, k, v);
        assert StageOrder(cs)[..|keys|] == keys;
      }
    }
  }
}
