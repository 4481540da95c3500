/** How many result rows one run may leave, and when there is more than one. */
module LeaseResults {
  import opened LeaseRows
  import opened LeaseProtocol
  import opened LeaseTheorems

  /** The step inserts a new result row for the run. */
  ghost predicate InsertsFor(s: State, step: Step, r: RunId) {
    MergeInserts(s, step) && s.workers[step.w].run == r
  }

  // --------------------------------------------------------- bounded by the selections

  ghost function Inserts(states: seq<State>, steps: seq<Step>, r: RunId, i: nat): nat
    requires i <= |steps| && |steps| <= |states|
  {
    if i == 0 then 0 else Inserts(states, steps, r, i - 1) + if InsertsFor(states[i - 1], steps[i - 1], r) then 1 else 0
  }

  function Selections(steps: seq<Step>, r: RunId, i: nat): nat
    requires i <= |steps|
  {
    if i == 0 then 0 else Selections(steps, r, i - 1) + if steps[i - 1].Select? && steps[i - 1].id == r then 1 else 0
  }

  /** The worker has taken the run and may still insert a result for it. */
  predicate MayInsert(s: State, r: RunId, w: WorkerId) {
    w in s.workers && (s.workers[w].Working? || s.workers[w].Publishing?) && s.workers[w].run == r
  }

  ghost function Pending(s: State, r: RunId): set<WorkerId> { set w | w in s.workers && MayInsert(s, r, w) }

  lemma MayInsertChange(cfg: Config, s: State, step: Step, r: RunId, w: WorkerId)
    requires Enabled(cfg, s, step) && MayInsert(Apply(cfg, s, step), r, w)
    ensures MayInsert(s, r, w) || step == Select(w, r)
    ensures !(step.Merge? && step.w == w)
  {}

  /** A selection adds at most one worker to those who may insert, and an insert
      takes one away. */
  lemma PendingStep(cfg: Config, s: State, step: Step, r: RunId)
    requires Enabled(cfg, s, step)
    ensures |Pending(Apply(cfg, s, step), r)| + (if InsertsFor(s, step, r) then 1 else 0)
            <= |Pending(s, r)| + if step.Select? && step.id == r then 1 else 0
  {
    var t := Apply(cfg, s, step);
    var before, after := Pending(s, r), Pending(t, r);
    forall w | w in after ensures (w in before || step == Select(w, r)) && !(step.Merge? && step.w == w) { MayInsertChange(cfg, s, step, r, w); }
    if InsertsFor(s, step, r) {
      assert step.w in before;
      assert after <= before - {step.w};
      Smaller(after, before - {step.w});
    } else if step.Select? && step.id == r {
      assert after <= before + {step.w};
      Smaller(after, before + {step.w});
    } else {
      assert after <= before;
      Smaller(after, before);
    }
  }

  lemma {:induction false} Smaller(a: set<WorkerId>, b: set<WorkerId>)
    requires a <= b
    ensures |a| <= |b|
  {
    if a != {} {
      var x :| x in a;
      Smaller(a - {x}, b - {x});
    }
  }

  /** Over every interleaving, a run has at most one result row for each time it was
      selected. */
  lemma {:induction false} InsertsBounded(cfg: Config, states: seq<State>, steps: seq<Step>, r: RunId, i: nat)
    requires IsRun(cfg, states, steps) && i <= |steps|
    ensures Inserts(states, steps, r, i) + |Pending(states[i], r)| <= Selections(steps, r, i)
  {
    hide Apply, Enabled, Pending, InsertsFor;
    if i > 0 {
      InsertsBounded(cfg, states, steps, r, i - 1);
      PendingStep(cfg, states[i - 1], steps[i - 1], r);
    } else {
      NobodyPending(r);
    }
  }

  lemma NobodyPending(r: RunId)
    ensures Pending(INIT, r) == {}
  {}

  // --------------------------------------------------- a second insert follows a loss

  /** The worker has inserted a result for the run and not yet settled the row. */
  predicate Inserted(s: State, r: RunId, w: WorkerId) {
    w in s.workers && (s.workers[w].Verifying? || s.workers[w].Finishing?) && s.workers[w].run == r
  }

  ghost predicate Completes(s: State, step: Step, r: RunId) {
    && step.Complete? && step.ok && step.w in s.workers && s.workers[step.w].Finishing? && s.workers[step.w].run == r
    && r in s.rows && CompleteFits(s.rows[r], step.w)
  }

  /** The worker loses its attempt after the insert: it crashes, is told that the
      insert failed, fails to read the result back, or fails to complete the row. */
  ghost predicate Loses(s: State, step: Step, r: RunId, w: WorkerId) {
    || step == Crash(w)
    || (step.Merge? && step.w == w && !step.ok)
    || (step.Verify? && step.w == w && w in s.workers && s.workers[w].Verifying?
        && !(step.readOk && s.workers[w].result.id in s.results && s.results[s.workers[w].result.id] == s.workers[w].result.stored))
    || (step.Complete? && step.w == w && !Completes(s, step, r))
  }

  lemma AfterInsert(cfg: Config, s: State, step: Step, r: RunId)
    requires Enabled(cfg, s, step) && InsertsFor(s, step, r)
    ensures step.ok ==> Inserted(Apply(cfg, s, step), r, step.w)
    ensures !step.ok ==> Loses(s, step, r, step.w)
  {}

  lemma InsertedEnds(cfg: Config, s: State, step: Step, r: RunId, w: WorkerId)
    requires Enabled(cfg, s, step) && w in s.born && Inserted(s, r, w) && !Inserted(Apply(cfg, s, step), r, w)
    ensures Loses(s, step, r, w) || (Completes(s, step, r) && r in Apply(cfg, s, step).rows && Apply(cfg, s, step).rows[r].status == Completed)
  {}

  /** Where the settled state ends between two states. */
  lemma {:induction false} EndOf(states: seq<State>, r: RunId, w: WorkerId, i: nat, j: nat) returns (k: nat)
    requires i < j < |states| && Inserted(states[i], r, w) && !Inserted(states[j], r, w)
    ensures i <= k < j && Inserted(states[k], r, w) && !Inserted(states[k + 1], r, w)
    decreases j - i
  {
    if !Inserted(states[i + 1], r, w) { k := i; } else { k := EndOf(states, r, w, i + 1, j); }
  }

  /** Under the single worker a completed row stays completed. */
  lemma {:induction false} StaysCompleted(cfg: Config, states: seq<State>, steps: seq<Step>, i: nat, j: nat, r: RunId)
    requires IsPinnedRun(cfg, states, steps) && cfg.max >= 1 && i <= j < |states|
    requires r in states[i].rows && states[i].rows[r].status == Completed
    ensures r in states[j].rows && states[j].rows[r].status == Completed
    decreases j - i
  {
    hide IsPinnedRun;
    if i < j {
      StaysCompleted(cfg, states, steps, i, j - 1, r);
      Lengths(cfg, states, steps);
      TerminalStates(cfg, states, steps, j - 1, r);
    }
  }

  lemma Lengths(cfg: Config, states: seq<State>, steps: seq<Step>)
    requires IsPinnedRun(cfg, states, steps)
    ensures |states| == |steps| + 1
  {}

  lemma InsertingHolds(cfg: Config, s: State, step: Step, r: RunId)
    requires Pinned(cfg, s) && InsertsFor(s, step, r)
    ensures r in s.rows && s.rows[r].status != Completed
    ensures forall w :: w in s.workers ==> !Inserted(s, r, w)
  {
    assert HeldRow(s, step.w);
  }

  /** Under the single worker, a second result row for a run is inserted only after
      the worker of the first lost its attempt without completing the row. */
  lemma SecondInsertAfterLoss(cfg: Config, states: seq<State>, steps: seq<Step>, i: nat, j: nat, r: RunId) returns (k: nat)
    requires IsPinnedRun(cfg, states, steps) && cfg.max >= 1 && i < j < |steps|
    requires InsertsFor(states[i], steps[i], r) && InsertsFor(states[j], steps[j], r)
    ensures i <= k < j && Loses(states[k], steps[k], r, steps[i].w)
  {
    var w := steps[i].w;
    hide Apply, Enabled, Pinned, Loses, Inserted, Completes, InsertsFor;
    AlwaysPinned(cfg, states, steps, j);
    InsertingHolds(cfg, states[j], steps[j], r);
    assert PinnedStep(cfg, states[i], steps[i]);
    AfterInsert(cfg, states[i], steps[i], r);
    if !steps[i].ok {
      k := i;
    } else {
      NotThere(states[j], r, w);
      k := EndOf(states, r, w, i + 1, j);
      assert PinnedStep(cfg, states[k], steps[k]);
      AlwaysPinned(cfg, states, steps, k);
      WasBorn(cfg, states[k], r, w);
      InsertedEnds(cfg, states[k], steps[k], r, w);
      if !Loses(states[k], steps[k], r, w) { StaysCompleted(cfg, states, steps, k + 1, j, r); }
    }
  }

  lemma WasBorn(cfg: Config, s: State, r: RunId, w: WorkerId)
    requires Pinned(cfg, s) && Inserted(s, r, w)
    ensures w in s.born
  {}

  lemma NotThere(s: State, r: RunId, w: WorkerId)
    ensures w !in s.workers ==> !Inserted(s, r, w)
  {}

  /** Each result row of a run has the step that inserted it. */
  lemma {:induction false} InsertOf(cfg: Config, states: seq<State>, steps: seq<Step>, m: nat, id: ResultId) returns (i: nat)
    requires IsRun(cfg, states, steps) && m < |states| && id in states[m].origin
    ensures i < m && InsertsFor(states[i], steps[i], states[m].origin[id]) && states[i].workers[steps[i].w].result.id == id
  {
    OriginStep(cfg, states, steps, m, id);
    if id in states[m - 1].origin && states[m - 1].origin[id] == states[m].origin[id] {
      i := InsertOf(cfg, states, steps, m - 1, id);
    } else {
      i := m - 1;
    }
  }

  lemma OriginStep(cfg: Config, states: seq<State>, steps: seq<Step>, m: nat, id: ResultId)
    requires IsRun(cfg, states, steps) && m < |states| && id in states[m].origin
    ensures m > 0
    ensures (id in states[m - 1].origin && states[m - 1].origin[id] == states[m].origin[id])
            || (InsertsFor(states[m - 1], steps[m - 1], states[m].origin[id]) && states[m - 1].workers[steps[m - 1].w].result.id == id)
  {
    if m > 0 {
      var s, step := states[m - 1], steps[m - 1];
      assert Enabled(cfg, s, step) && states[m] == Apply(cfg, s, step);
      OriginAfterStep(cfg, s, step, id);
    }
  }

  lemma OriginAfterStep(cfg: Config, s: State, step: Step, id: ResultId)
    requires Enabled(cfg, s, step) && id in Apply(cfg, s, step).origin
    ensures var r := Apply(cfg, s, step).origin[id];
            || (id in s.origin && s.origin[id] == r)
            || (InsertsFor(s, step, r) && s.workers[step.w].result.id == id)
  {}

  /** Under the single worker, a run that left two result rows lost an attempt after
      the first of them; so where every inserting attempt completed its row, there
      is one. */
  lemma TwoResultsMeanLoss(cfg: Config, states: seq<State>, steps: seq<Step>, m: nat, a: ResultId, b: ResultId) returns (i: nat, k: nat)
    requires IsPinnedRun(cfg, states, steps) && cfg.max >= 1 && m < |states|
    requires a in states[m].origin && b in states[m].origin && a != b && states[m].origin[a] == states[m].origin[b]
    ensures i <= k < m && InsertsFor(states[i], steps[i], states[m].origin[a])
    ensures Loses(states[k], steps[k], states[m].origin[a], steps[i].w)
  {
    hide Apply, Enabled, Loses;
    var r := states[m].origin[a];
    var x := InsertOf(cfg, states, steps, m, a);
    var y := InsertOf(cfg, states, steps, m, b);
    if x < y {
      i := x;
      k := SecondInsertAfterLoss(cfg, states, steps, x, y, r);
    } else {
      i := y;
      k := SecondInsertAfterLoss(cfg, states, steps, y, x, r);
    }
  }
}
