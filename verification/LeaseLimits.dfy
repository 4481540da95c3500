/** What the queue does not guarantee, each shown by a run of the service. */
module LeaseLimits {
  import opened Options
  import opened LeaseRows
  import opened LeaseProtocol
  import opened LeaseTheorems
  import opened LeaseStuck
  import Timestamps
  import Calendar

  function SetRow(s: State, id: RunId, r: Row): State { s.(rows := s.rows[id := r]) }

  function SetWorker(s: State, w: WorkerId, pc: Worker): State { s.(workers := s.workers[w := pc]) }

  // ------------------------------------------------------------ building a run

  const R1 := Result(1, Stored(1, 1, 1))
  const R2 := Result(2, Stored(2, 2, 2))

  ghost predicate Pinned1(cfg: Config, t: Trace) { IsPinnedRun(cfg, t.states, t.steps) }

  /** Extends a run by one step. */
  lemma Then(cfg: Config, t: Trace, step: Step, next: State) returns (u: Trace)
    requires t.From(cfg, INIT) && Enabled(cfg, t.Last(), step) && Apply(cfg, t.Last(), step) == next
    ensures u.From(cfg, INIT) && u.Last() == next && |u.states| >= 2 && u.states[|u.states| - 2] == t.Last()
    ensures Pinned1(cfg, t) && (step.Start? ==> t.Last().workers == map[]) ==> Pinned1(cfg, u)
  {
    u := OneMoreStep(cfg, INIT, t, step);
    hide Apply, Enabled;
    if Pinned1(cfg, t) && (step.Start? ==> t.Last().workers == map[]) {
      forall i | 0 <= i < |u.steps| ensures PinnedStep(cfg, u.states[i], u.steps[i]) {
        if i < |t.steps| {
          assert u.steps[i] == t.steps[i] && u.states[i] == t.states[i];
          assert PinnedStep(cfg, t.states[i], t.steps[i]);
        }
      }
    }
  }

  /** The time at which the runs below begin. */
  function Zero(cfg: Config): Text { cfg.text(0) }

  /** The row at its n-th claim, by worker 1 at time 0. */
  function ClaimedRow(cfg: Config, n: nat): Row {
    NewRow(0, 0, Zero(cfg)).(status := Running, worker := Some(1), lease := Some(cfg.text(cfg.leaseSeconds * Calendar.SECOND)), attempt := n)
  }

  /** One submitted run, claimed n times at time 0 by worker 1, which is at `pc`. */
  function OneRun(cfg: Config, n: nat, pc: Worker): State {
    State(map[0 := ClaimedRow(cfg, n)], map[], map[1 := pc], {1},
          map[0 := Answered(0, 0, 0, Created(0))], {0}, map[0 := n], map[], 0)
  }

  /** The same run queued after n claims. */
  function QueuedRun(cfg: Config, n: nat, workers: map<WorkerId, Worker>, born: set<WorkerId>): State {
    State(map[0 := NewRow(0, 0, Zero(cfg)).(attempt := n)], map[], workers, born,
          map[0 := Answered(0, 0, 0, Created(0))], {0}, map[0 := n], map[], 0)
  }

  lemma SubmitStep(cfg: Config, s: State)
    requires s == INIT.(submitters := map[0 := Entering(0, 0, 0)], minted := {0})
    ensures Enabled(cfg, INIT, Lookup(0, 0, 0, 0, None)) && Apply(cfg, INIT, Lookup(0, 0, 0, 0, None)) == s
    ensures Enabled(cfg, s, Insert(0)) && Apply(cfg, s, Insert(0)) == QueuedRun(cfg, 0, map[], {})
  {}

  lemma StartFirst(cfg: Config)
    ensures Enabled(cfg, QueuedRun(cfg, 0, map[], {}), Start(1))
    ensures Apply(cfg, QueuedRun(cfg, 0, map[], {}), Start(1)) == QueuedRun(cfg, 0, map[1 := Idle], {1})
  {}

  lemma ClaimStep(cfg: Config, n: nat, s: State)
    requires n < cfg.max && s == QueuedRun(cfg, n, map[1 := Idle], {1})
    ensures Enabled(cfg, s, Claim(1, 0)) && Apply(cfg, s, Claim(1, 0)) == OneRun(cfg, n + 1, Claiming)
  {
    NoneEarlier(s.rows, 0);
    assert s.rows[0 := ClaimedRow(cfg, n + 1)] == map[0 := ClaimedRow(cfg, n + 1)];
  }

  lemma NoneEarlier(rows: map<RunId, Row>, id: RunId)
    requires rows.Keys == {id}
    ensures forall o :: o in rows ==> !Earlier(rows[o].created, rows[id].created) && !Earlier(rows[id].updated, rows[o].updated)
  {
    forall o | o in rows ensures o == id {}
    Timestamps.Irreflexive(rows[id].created);
    Timestamps.Irreflexive(rows[id].updated);
  }

  lemma SelectStep(cfg: Config, n: nat, s: State)
    requires s == OneRun(cfg, n, Claiming)
    ensures Enabled(cfg, s, Select(1, 0)) && Apply(cfg, s, Select(1, 0)) == OneRun(cfg, n, Working(0, n))
  {
    NoneEarlier(s.rows, 0);
  }

  /** Worker 1's first claim. */
  lemma ReachClaimed(cfg: Config) returns (t: Trace)
    requires cfg.max >= 1
    ensures t.From(cfg, INIT) && Pinned1(cfg, t) && t.Last() == OneRun(cfg, 1, Working(0, 1))
  {
    t := Trace([INIT], []);
    assert t.From(cfg, INIT) && Pinned1(cfg, t);
    hide Apply, Enabled, IsPath, Pinned1;
    var s := INIT.(submitters := map[0 := Entering(0, 0, 0)], minted := {0});
    SubmitStep(cfg, s);
    t := Then(cfg, t, Lookup(0, 0, 0, 0, None), s);
    t := Then(cfg, t, Insert(0), QueuedRun(cfg, 0, map[], {}));
    StartFirst(cfg);
    t := Then(cfg, t, Start(1), QueuedRun(cfg, 0, map[1 := Idle], {1}));
    t := ClaimAndSelect(cfg, t, 0);
  }

  lemma ClaimAndSelect(cfg: Config, t: Trace, n: nat) returns (u: Trace)
    requires n < cfg.max && t.From(cfg, INIT) && Pinned1(cfg, t) && t.Last() == QueuedRun(cfg, n, map[1 := Idle], {1})
    ensures u.From(cfg, INIT) && Pinned1(cfg, u) && u.Last() == OneRun(cfg, n + 1, Working(0, n + 1))
  {
    hide Apply, Enabled, IsPath, Pinned1;
    ClaimStep(cfg, n, t.Last());
    u := Then(cfg, t, Claim(1, 0), OneRun(cfg, n + 1, Claiming));
    SelectStep(cfg, n + 1, u.Last());
    u := Then(cfg, u, Select(1, 0), OneRun(cfg, n + 1, Working(0, n + 1)));
  }

  /** Worker 1 translates, and its insert fails. */
  lemma PublishFails(cfg: Config, t: Trace, s: State, n: nat) returns (u: Trace)
    requires t.From(cfg, INIT) && t.Last() == s && 1 in s.workers && s.workers[1] == Working(0, n)
    requires 0 in s.rows && !s.rows[0].cancelRequested
    ensures u.From(cfg, INIT) && (Pinned1(cfg, t) ==> Pinned1(cfg, u))
    ensures u.Last() == s.(workers := s.workers[1 := Failing(0, n)])
  {
    hide IsPath, Pinned1;
    var p := s.(workers := s.workers[1 := Publishing(0, n, R1)]);
    u := Then(cfg, t, Settle(1, R1, true), p);
    u := Then(cfg, u, Merge(1, false, false), s.(workers := s.workers[1 := Failing(0, n)]));
  }

  lemma RequeueStep(cfg: Config, n: nat, s: State)
    requires n < cfg.max && s == OneRun(cfg, n, Failing(0, n))
    ensures Enabled(cfg, s, Fail(1, true)) && Apply(cfg, s, Fail(1, true)) == QueuedRun(cfg, n, map[1 := Idle], {1})
  {
    var row := NewRow(0, 0, Zero(cfg)).(attempt := n);
    assert FailRow(ClaimedRow(cfg, n), true, Zero(cfg)) == row;
    assert s.rows[0 := row] == map[0 := row] && s.workers[1 := Idle] == map[1 := Idle];
  }

  /** The single worker at its n-th attempt, after n - 1 failed publications. */
  lemma {:induction false} ReachAttempt(cfg: Config, n: nat) returns (t: Trace)
    requires 1 <= n <= cfg.max
    ensures t.From(cfg, INIT) && Pinned1(cfg, t) && t.Last() == OneRun(cfg, n, Working(0, n))
  {
    hide Apply, Enabled, IsPath, Pinned1;
    if n == 1 {
      t := ReachClaimed(cfg);
    } else {
      t := ReachAttempt(cfg, n - 1);
      t := PublishFails(cfg, t, t.Last(), n - 1);
      assert t.Last() == OneRun(cfg, n - 1, Failing(0, n - 1));
      RequeueStep(cfg, n - 1, t.Last());
      t := Then(cfg, t, Fail(1, true), QueuedRun(cfg, n - 1, map[1 := Idle], {1}));
      t := ClaimAndSelect(cfg, t, n - 1);
    }
  }

  // -------------------------------------------------------------- stuck for good

  /** A crash while the last attempt is being worked on, whatever the bound. */
  lemma CrashOnLastAttempt(cfg: Config) returns (t: Trace)
    requires cfg.max >= 1
    ensures IsPinnedRun(cfg, t.states, t.steps) && Stuck(cfg, t.Last(), 0)
  {
    hide IsPath;
    t := ReachAttempt(cfg, cfg.max);
    var s := OneRun(cfg, cfg.max, Working(0, cfg.max));
    t := Then(cfg, t, Crash(1), s.(workers := map[]));
  }

  /** And without a crash: on the last attempt the statement that records the
      failure is lost, and the worker goes on. */
  lemma LostFailureOnLastAttempt(cfg: Config) returns (t: Trace)
    requires cfg.max >= 1
    ensures IsPinnedRun(cfg, t.states, t.steps) && Abandoned(cfg, t.Last(), 0) && t.Last().workers == map[1 := Idle]
  {
    hide IsPath;
    t := ReachAttempt(cfg, cfg.max);
    t := PublishFails(cfg, t, t.Last(), cfg.max);
    var s := OneRun(cfg, cfg.max, Failing(0, cfg.max));
    assert t.Last() == s;
    assert s.workers[1 := Idle] == map[1 := Idle];
    t := Then(cfg, t, Fail(1, false), s.(workers := map[1 := Idle]));
  }

  // ------------------------------------------------------- a cancellation undone

  /** Recording a failure is fenced by the run id alone: a run canceled while its
      result is being published goes back to the queue, even with one worker. */
  lemma CanceledIsRequeued(cfg: Config) returns (t: Trace)
    requires cfg.max >= 2
    ensures IsPinnedRun(cfg, t.states, t.steps) && |t.states| >= 2
    ensures var before := t.states[|t.states| - 2];
            0 in before.rows && before.rows[0].status == Canceled
    ensures 0 in t.Last().rows && t.Last().rows[0].status == Queued && t.Last().rows[0].cancelRequested
  {
    hide IsPath;
    t := ReachClaimed(cfg);
    t := PublishFails(cfg, t, t.Last(), 1);
    var s := OneRun(cfg, 1, Failing(0, 1));
    assert t.Last() == s;
    var canceled := SetRow(s, 0, CancelRow(s.rows[0], Zero(cfg)));
    t := Then(cfg, t, Cancel(0), canceled);
    t := Then(cfg, t, Fail(1, true), SetWorker(SetRow(canceled, 0, FailRow(canceled.rows[0], true, Zero(cfg))), 1, Idle));
  }

  // --------------------------------------------------------- a result row twice

  /** Worker w translates and inserts its result. */
  lemma Publishes(cfg: Config, t: Trace, s: State, w: WorkerId, attempt: nat, r: Result) returns (u: Trace)
    requires t.From(cfg, INIT) && t.Last() == s && w in s.workers && s.workers[w] == Working(0, attempt)
    requires 0 in s.rows && !s.rows[0].cancelRequested && r.id !in s.results
    ensures u.From(cfg, INIT) && (Pinned1(cfg, t) ==> Pinned1(cfg, u))
    ensures u.Last() == s.(workers := s.workers[w := Verifying(0, attempt, r)],
                           results := s.results[r.id := r.stored], origin := s.origin[r.id := 0])
  {
    hide IsPath, Pinned1;
    var p := s.(workers := s.workers[w := Publishing(0, attempt, r)]);
    u := Then(cfg, t, Settle(w, r, true), p);
    u := Then(cfg, u, Merge(w, true, true),
              s.(workers := s.workers[w := Verifying(0, attempt, r)],
                 results := s.results[r.id := r.stored], origin := s.origin[r.id := 0]));
  }

  /** Just after the first lease has run out. */
  function Later(cfg: Config): nat { cfg.leaseSeconds * Calendar.SECOND + 1 }

  /** The clock writes the standard texts, and has not reached year 10000 then. */
  ghost predicate Timely(cfg: Config) { StandardClock(cfg) && Calendar.InEra(Later(cfg)) }

  /** The result table is keyed on an id drawn afresh for every attempt: a crash
      between the insert and the completion leaves two rows for one run. */
  lemma TwoResultsForOneRun(cfg: Config) returns (t: Trace)
    requires cfg.max >= 2 && Timely(cfg)
    ensures IsPinnedRun(cfg, t.states, t.steps)
    ensures R1.id in t.Last().results && R2.id in t.Last().results && R1.id != R2.id
    ensures t.Last().origin == map[1 := 0, 2 := 0]
  {
    hide IsPath, Timely;
    t := ReachClaimed(cfg);
    t := Publishes(cfg, t, t.Last(), 1, 1, R1);
    var s := t.Last().(workers := map[]);
    t := Then(cfg, t, Crash(1), s);
    t := SecondClaim(cfg, t, s);
    t := Publishes(cfg, t, t.Last(), 2, 2, R2);
  }

  /** The row after the second claim. */
  function ReclaimedRow(cfg: Config): Row {
    ClaimRow(ClaimedRow(cfg, 1), 2, cfg.text(Later(cfg)), cfg.text(Later(cfg) + cfg.leaseSeconds * Calendar.SECOND))
  }

  /** The state after worker 2 has claimed the run again. */
  function Reclaimed(cfg: Config, s: State): State {
    s.(rows := map[0 := ReclaimedRow(cfg)], workers := s.workers[2 := Working(0, 2)], born := {1, 2},
       claims := map[0 := 2], now := Later(cfg))
  }

  /** Worker 2 starts, waits for the lease of worker 1 to run out, and claims. */
  lemma SecondClaim(cfg: Config, t: Trace, s: State) returns (u: Trace)
    requires cfg.max >= 2 && Timely(cfg) && t.From(cfg, INIT) && t.Last() == s && s.born == {1} && s.now == 0 && s.claims == map[0 := 1]
    requires s.rows == map[0 := ClaimedRow(cfg, 1)] && 2 !in s.workers
    ensures u.From(cfg, INIT) && u.Last() == Reclaimed(cfg, s)
    ensures Pinned1(cfg, t) && s.workers == map[] ==> Pinned1(cfg, u)
  {
    hide Apply, Enabled, IsPath, Pinned1, Timely;
    var a := s.(workers := s.workers[2 := Idle], born := {1, 2});
    var b := a.(now := Later(cfg));
    var c := Reclaimed(cfg, s).(workers := s.workers[2 := Claiming]);
    StartStep(cfg, s, a, b);
    ReclaimStep(cfg, s, b, c);
    u := Then(cfg, t, Start(2), a);
    u := Then(cfg, u, Advance(Later(cfg)), b);
    u := Then(cfg, u, Claim(2, 0), c);
    u := Then(cfg, u, Select(2, 0), Reclaimed(cfg, s));
  }

  lemma StartStep(cfg: Config, s: State, a: State, b: State)
    requires s.born == {1} && s.now == 0
    requires a == s.(workers := s.workers[2 := Idle], born := {1, 2}) && b == a.(now := Later(cfg))
    ensures Enabled(cfg, s, Start(2)) && Apply(cfg, s, Start(2)) == a
    ensures Enabled(cfg, a, Advance(Later(cfg))) && Apply(cfg, a, Advance(Later(cfg))) == b
  {
    assert s.born + {2} == {1, 2};
  }

  lemma ReclaimStep(cfg: Config, s: State, b: State, c: State)
    requires cfg.max >= 2 && Timely(cfg) && s.claims == map[0 := 1] && s.rows == map[0 := ClaimedRow(cfg, 1)]
    requires b == s.(workers := s.workers[2 := Idle], born := {1, 2}, now := Later(cfg))
    requires c == Reclaimed(cfg, s).(workers := s.workers[2 := Claiming])
    ensures Enabled(cfg, b, Claim(2, 0)) && Apply(cfg, b, Claim(2, 0)) == c
    ensures Enabled(cfg, c, Select(2, 0)) && Apply(cfg, c, Select(2, 0)) == Reclaimed(cfg, s)
  {
    ReclaimMaps(cfg, s, b, c);
    ExpiredLater(cfg, b.rows[0]);
    hide *;
    ClaimApplies(cfg, b);
    SelectAgain(cfg, s, c);
  }

  lemma ExpiredLater(cfg: Config, r: Row)
    requires Timely(cfg) && cfg.max >= 2 && r == ClaimedRow(cfg, 1)
    ensures Eligible(r, cfg.text(Later(cfg)), cfg.max)
  {
    hide Calendar.Text, Calendar.InEra;
    var e := cfg.leaseSeconds * Calendar.SECOND;
    Calendar.EraBefore(e, e + 1);
    Calendar.TextOrder(e, e + 1);
  }

  lemma ReclaimMaps(cfg: Config, s: State, b: State, c: State)
    requires s.claims == map[0 := 1] && s.rows == map[0 := ClaimedRow(cfg, 1)]
    requires b == s.(workers := s.workers[2 := Idle], born := {1, 2}, now := Later(cfg))
    requires c == Reclaimed(cfg, s).(workers := s.workers[2 := Claiming])
    ensures 2 in b.workers && b.workers[2].Idle? && b.rows.Keys == {0} && b.rows[0] == ClaimedRow(cfg, 1) && b.claims == map[0 := 1]
    ensures c == b.(rows := b.rows[0 := ClaimRow(b.rows[0], 2, Now(cfg, b), Expiry(cfg, b))],
                    workers := b.workers[2 := Claiming], claims := b.claims[0 := 2])
    ensures Now(cfg, b) == cfg.text(Later(cfg))
  {
    assert b.workers[2 := Claiming] == c.workers;
    assert b.rows[0 := ReclaimedRow(cfg)] == c.rows;
    assert b.claims[0 := 2] == c.claims;
  }

  lemma ClaimApplies(cfg: Config, b: State)
    requires 2 in b.workers && b.workers[2].Idle? && b.rows.Keys == {0} && Eligible(b.rows[0], Now(cfg, b), cfg.max) && b.claims == map[0 := 1]
    ensures Enabled(cfg, b, Claim(2, 0))
    ensures Apply(cfg, b, Claim(2, 0)) ==
            b.(rows := b.rows[0 := ClaimRow(b.rows[0], 2, Now(cfg, b), Expiry(cfg, b))],
               workers := b.workers[2 := Claiming], claims := b.claims[0 := 2])
  {
    NoneEarlier(b.rows, 0);
  }

  lemma SelectAgain(cfg: Config, s: State, c: State)
    requires c == Reclaimed(cfg, s).(workers := s.workers[2 := Claiming])
    ensures Enabled(cfg, c, Select(2, 0)) && Apply(cfg, c, Select(2, 0)) == Reclaimed(cfg, s)
  {
    NoneEarlier(c.rows, 0);
    assert IsSelected(c.rows, 2, 0);
    assert c.workers[2 := Working(0, 2)] == s.workers[2 := Working(0, 2)];
  }

  // ---------------------------------------------------------------- two workers

  /** Without the pin, a worker that lost its lease reopens a completed run; and
      with two attempts it leaves it queued with none left, so that it is never
      claimed again. */
  lemma CompletedIsReopened(cfg: Config) returns (t: Trace)
    requires cfg.max == 2 && Timely(cfg)
    ensures IsRun(cfg, t.states, t.steps) && |t.states| >= 2
    ensures var before := t.states[|t.states| - 2];
            0 in before.rows && before.rows[0].status == Completed && before.rows[0].resultId == Some(R2.id)
    ensures 0 in t.Last().rows && t.Last().rows[0].status == Queued && t.Last().rows[0].attempt == cfg.max
  {
    hide IsPath, Timely;
    t := ReachClaimed(cfg);
    var s0 := OneRun(cfg, 1, Working(0, 1));
    t := SecondClaim(cfg, t, s0);
    t := PublishFails(cfg, t, t.Last(), 1);
    t := Publishes(cfg, t, t.Last(), 2, 2, R2);
    t := FinishesSecond(cfg, t, t.Last());
    var done := t.Last();
    t := Then(cfg, t, Fail(1, true), SetWorker(SetRow(done, 0, FailRow(done.rows[0], true, Now(cfg, done))), 1, Idle));
  }

  /** Worker 2 verifies its result and completes the run. */
  lemma FinishesSecond(cfg: Config, t: Trace, s: State) returns (u: Trace)
    requires t.From(cfg, INIT) && t.Last() == s && s.rows == map[0 := ReclaimedRow(cfg)]
    requires 2 in s.workers && s.workers[2] == Verifying(0, 2, R2) && R2.id in s.results && s.results[R2.id] == R2.stored
    ensures u.From(cfg, INIT)
    ensures u.Last() == s.(rows := map[0 := CompleteRow(ReclaimedRow(cfg), R2.id, R2.stored, Now(cfg, s))], workers := s.workers[2 := Idle])
  {
    hide IsPath, Pinned1;
    var f := s.(workers := s.workers[2 := Finishing(0, 2, R2)]);
    u := Then(cfg, t, Verify(2, true), f);
    assert f.workers[2 := Idle] == s.workers[2 := Idle];
    u := Then(cfg, u, Complete(2, true),
              s.(rows := map[0 := CompleteRow(ReclaimedRow(cfg), R2.id, R2.stored, Now(cfg, s))], workers := s.workers[2 := Idle]));
  }
}
