/** Which running rows can still change, and which stay `running` for good. */
module LeaseStuck {
  import opened Options
  import opened LeaseRows
  import opened LeaseProtocol
  import opened LeaseTheorems
  import Timestamps
  import Calendar

  // ----------------------------------------------------------------- continuations

  /** A sequence of steps and the states between them. */
  datatype Trace = Trace(states: seq<State>, steps: seq<Step>) {
    ghost predicate From(cfg: Config, s: State) { states != [] && IsPath(cfg, s, states, steps) }
    function Last(): State
      requires states != []
    {
      states[|states| - 1]
    }
  }

  lemma OneMoreStep(cfg: Config, s: State, t: Trace, step: Step) returns (u: Trace)
    requires t.From(cfg, s) && Enabled(cfg, t.Last(), step)
    ensures u == Trace(t.states + [Apply(cfg, t.Last(), step)], t.steps + [step]) && u.From(cfg, s)
  {
    hide Apply, Enabled;
    u := Trace(t.states + [Apply(cfg, t.Last(), step)], t.steps + [step]);
    forall i | 0 <= i < |u.steps| ensures Enabled(cfg, u.states[i], u.steps[i]) && u.states[i + 1] == Apply(cfg, u.states[i], u.steps[i]) {
      if i < |t.steps| {
        assert u.steps[i] == t.steps[i] && u.states[i] == t.states[i] && u.states[i + 1] == t.states[i + 1];
      }
    }
  }

  /** No step of the trace cancels the row. */
  ghost predicate Quiet(t: Trace, id: RunId) {
    forall k :: 0 <= k < |t.steps| ==> t.steps[k] != Cancel(id)
  }

  // ------------------------------------------------------------- stuck and abandoned

  /** Nobody who is still there can complete or fail the row: those that hold it are
      past the point of failing it, and are not its owner. */
  ghost predicate OutOfReach(s: State, id: RunId)
    requires id in s.rows
  {
    forall v :: v in s.workers && Holds(s.workers[v]) && s.workers[v].run == id ==>
      s.workers[v].Finishing? && s.rows[id].worker != Some(v)
  }

  /** Running on its last attempt, and out of reach. */
  ghost predicate Abandoned(cfg: Config, s: State, id: RunId) {
    && id in s.rows && s.rows[id].status == Running && s.rows[id].attempt >= cfg.max
    && s.rows[id].worker.Some? && OutOfReach(s, id)
  }

  /** Abandoned, and its owner is gone. */
  ghost predicate Stuck(cfg: Config, s: State, id: RunId) {
    && Abandoned(cfg, s, id)
    && s.rows[id].worker.value in s.born && s.rows[id].worker.value !in s.workers
  }

  lemma HoldersStay(cfg: Config, s: State, step: Step, id: RunId, v: WorkerId)
    requires Enabled(cfg, s, step) && id in s.rows && !(step.Select? && step.id == id)
    requires v in Apply(cfg, s, step).workers && Holds(Apply(cfg, s, step).workers[v]) && Apply(cfg, s, step).workers[v].run == id
    ensures v in s.workers && Holds(s.workers[v]) && s.workers[v].run == id
    ensures s.workers[v].Finishing? ==> Apply(cfg, s, step).workers[v] == s.workers[v]
  {}

  /** An abandoned row keeps its status, attempt and owner until it is canceled or
      its owner reads it back. */
  lemma AbandonedStays(cfg: Config, s: State, step: Step, id: RunId)
    requires Enabled(cfg, s, step) && Abandoned(cfg, s, id) && step != Cancel(id) && !(step.Select? && step.id == id)
    ensures Abandoned(cfg, Apply(cfg, s, step), id)
    ensures var r := Apply(cfg, s, step).rows[id]; r.attempt == s.rows[id].attempt && r.worker == s.rows[id].worker
    ensures !step.Beat? ==> Apply(cfg, s, step).rows[id] == s.rows[id]
  {
    RowChange(cfg, s, step, id);
    var t := Apply(cfg, s, step);
    forall v | v in t.workers && Holds(t.workers[v]) && t.workers[v].run == id
      ensures t.workers[v].Finishing? && t.rows[id].worker != Some(v)
    {
      HoldersStay(cfg, s, step, id, v);
    }
  }

  lemma OwnerStaysGone(cfg: Config, s: State, step: Step, w: WorkerId)
    requires Enabled(cfg, s, step) && w in s.born && w !in s.workers
    ensures w in Apply(cfg, s, step).born && w !in Apply(cfg, s, step).workers
    ensures !(step.Select? && step.w == w) && !(step.Beat? && step.w == w)
  {}

  lemma StuckStays(cfg: Config, s: State, step: Step, id: RunId)
    requires Enabled(cfg, s, step) && Stuck(cfg, s, id) && step != Cancel(id)
    ensures Apply(cfg, s, step).rows[id] == s.rows[id] && Stuck(cfg, Apply(cfg, s, step), id)
  {
    OwnerStaysGone(cfg, s, step, s.rows[id].worker.value);
    SelectsOwn(cfg, s, step, id);
    AbandonedStays(cfg, s, step, id);
    RowChange(cfg, s, step, id);
    hide Apply, Enabled, OutOfReach;
  }

  lemma SelectsOwn(cfg: Config, s: State, step: Step, id: RunId)
    requires Enabled(cfg, s, step) && id in s.rows
    ensures step.Select? && step.id == id ==> s.rows[id].worker == Some(step.w)
  {}

  /** Whatever happens afterwards, a stuck row stays as it is until someone cancels
      it. */
  lemma {:induction false} StuckForever(cfg: Config, s: State, t: Trace, id: RunId, j: nat)
    requires t.From(cfg, s) && Quiet(t, id) && Stuck(cfg, s, id) && j < |t.states|
    ensures id in t.states[j].rows && t.states[j].rows[id] == s.rows[id] && Stuck(cfg, t.states[j], id)
  {
    hide Apply, Enabled;
    if j > 0 {
      StuckForever(cfg, s, t, id, j - 1);
      StuckStays(cfg, t.states[j - 1], t.steps[j - 1], id);
    }
  }

  // ------------------------------------------------------------- the way to a change

  /** A continuation of `s` that does not cancel the row. */
  ghost predicate Road(cfg: Config, s: State, t: Trace, id: RunId) {
    t.From(cfg, s) && Quiet(t, id) && Invariant(cfg, t.Last())
  }

  lemma Go(cfg: Config, s: State, t: Trace, id: RunId, step: Step) returns (u: Trace)
    requires Road(cfg, s, t, id) && Enabled(cfg, t.Last(), step) && step != Cancel(id)
    ensures Road(cfg, s, u, id) && u.Last() == Apply(cfg, t.Last(), step)
  {
    hide Apply, Enabled, IsPath, Invariant;
    u := OneMoreStep(cfg, s, t, step);
    InvariantKept(cfg, t.Last(), step);
  }

  /** The row is no longer running, or has been claimed again. */
  predicate Moved(s: State, t: State, id: RunId) {
    id in s.rows && id in t.rows && (t.rows[id].status != Running || t.rows[id].attempt != s.rows[id].attempt)
  }

  const SOME_RESULT := Result(0, Stored(0, 0, 0))

  /** The worker goes to `pc`, and nothing else changes. */
  ghost predicate OnlyWorker(s: State, t: State, w: WorkerId, pc: Worker) {
    t.rows == s.rows && t.now == s.now && t.workers == s.workers[w := pc]
  }

  lemma WorkerSteps(cfg: Config, s: State, w: WorkerId)
    requires w in s.workers
    ensures s.workers[w].Working? ==>
              Enabled(cfg, s, Settle(w, SOME_RESULT, false)) && OnlyWorker(s, Apply(cfg, s, Settle(w, SOME_RESULT, false)), w,
                                                                          Publishing(s.workers[w].run, s.workers[w].attempt, SOME_RESULT))
    ensures s.workers[w].Publishing? ==>
              Enabled(cfg, s, Merge(w, false, false)) && OnlyWorker(s, Apply(cfg, s, Merge(w, false, false)), w, Failing(s.workers[w].run, s.workers[w].attempt))
    ensures s.workers[w].Verifying? ==>
              Enabled(cfg, s, Verify(w, false)) && OnlyWorker(s, Apply(cfg, s, Verify(w, false)), w, Failing(s.workers[w].run, s.workers[w].attempt))
    ensures s.workers[w].Finishing? ==> Enabled(cfg, s, Complete(w, false)) && OnlyWorker(s, Apply(cfg, s, Complete(w, false)), w, Idle)
    ensures s.workers[w].Failing? ==> Enabled(cfg, s, Fail(w, false)) && OnlyWorker(s, Apply(cfg, s, Fail(w, false)), w, Idle)
    ensures s.workers[w].Claiming? ==> Enabled(cfg, s, SelectFails(w)) && OnlyWorker(s, Apply(cfg, s, SelectFails(w)), w, Idle)
  {}

  /** A worker that holds the row and has not verified its result can be brought to
      failing it. */
  lemma ToFailing(cfg: Config, s: State, t: Trace, id: RunId, w: WorkerId) returns (u: Trace)
    requires Road(cfg, s, t, id) && w in t.Last().workers && Holds(t.Last().workers[w]) && !t.Last().workers[w].Finishing?
    ensures Road(cfg, s, u, id)
    ensures OnlyWorker(t.Last(), u.Last(), w, Failing(t.Last().workers[w].run, t.Last().workers[w].attempt))
  {
    hide Apply, Enabled, IsPath, Invariant, Quiet;
    var a := t.Last();
    u := t;
    WorkerSteps(cfg, u.Last(), w);
    if u.Last().workers[w].Working? {
      u := Go(cfg, s, u, id, Settle(w, SOME_RESULT, false));
      WorkerSteps(cfg, u.Last(), w);
    }
    if u.Last().workers[w].Publishing? {
      u := Go(cfg, s, u, id, Merge(w, false, false));
    } else if u.Last().workers[w].Verifying? {
      u := Go(cfg, s, u, id, Verify(w, false));
    }
    assert u.Last().workers == a.workers[w := Failing(a.workers[w].run, a.workers[w].attempt)];
  }

  /** Any worker can be brought to be idle without touching a row. */
  lemma ToIdle(cfg: Config, s: State, t: Trace, id: RunId, w: WorkerId) returns (u: Trace)
    requires Road(cfg, s, t, id) && w in t.Last().workers
    ensures Road(cfg, s, u, id) && OnlyWorker(t.Last(), u.Last(), w, Idle)
  {
    hide Apply, Enabled, IsPath, Invariant, Quiet;
    var a := t.Last();
    u := t;
    if Holds(a.workers[w]) && !a.workers[w].Finishing? { u := ToFailing(cfg, s, t, id, w); }
    WorkerSteps(cfg, u.Last(), w);
    match u.Last().workers[w] {
      case Finishing(_, _, _) => u := Go(cfg, s, u, id, Complete(w, false));
      case Failing(_, _) => u := Go(cfg, s, u, id, Fail(w, false));
      case Claiming => u := Go(cfg, s, u, id, SelectFails(w));
      case _ =>
    }
    assert u.Last().workers == a.workers[w := Idle];
  }

  lemma FailMoves(cfg: Config, s: State, id: RunId, w: WorkerId)
    requires w in s.workers && s.workers[w].Failing? && s.workers[w].run == id && id in s.rows
    ensures Enabled(cfg, s, Fail(w, true)) && id in Apply(cfg, s, Fail(w, true)).rows
    ensures Apply(cfg, s, Fail(w, true)).rows[id].status != Running
  {}

  /** Whoever holds the row before verifying its result can take it out of
      `running`. */
  lemma HolderMoves(cfg: Config, s: State, t: Trace, id: RunId, w: WorkerId) returns (u: Trace)
    requires Road(cfg, s, t, id) && id in s.rows && id in t.Last().rows
    requires w in t.Last().workers && Holds(t.Last().workers[w]) && t.Last().workers[w].run == id && !t.Last().workers[w].Finishing?
    ensures Road(cfg, s, u, id) && Moved(s, u.Last(), id)
  {
    hide Apply, Enabled, IsPath, Invariant, Quiet;
    u := ToFailing(cfg, s, t, id, w);
    FailMoves(cfg, u.Last(), id, w);
    u := Go(cfg, s, u, id, Fail(w, true));
  }

  // ----------------------------------------------------------------- something to claim

  lemma {:induction false} Outside(xs: set<nat>) returns (n: nat)
    ensures forall x :: x in xs ==> x < n
  {
    if xs == {} {
      n := 0;
    } else {
      var x :| x in xs;
      var m := Outside(xs - {x});
      n := if x < m then m else x + 1;
      forall y | y in xs ensures y < n { assert y == x || y in xs - {x}; }
    }
  }

  /** Among claimable rows there is an oldest. */
  lemma OldestExists(rows: map<RunId, Row>, now: Text, max: nat, id: RunId) returns (o: RunId)
    requires id in rows && Eligible(rows[id], now, max)
    ensures Oldest(rows, o, now, max)
  {
    hide Eligible;
    var ids := set x | x in rows && Eligible(rows[x], now, max);
    assert id in ids;
    o := EarliestOf(rows, ids);
    forall x | x in rows && Eligible(rows[x], now, max) ensures !Earlier(rows[x].created, rows[o].created) { assert x in ids; }
  }

  lemma {:induction false} EarliestOf(rows: map<RunId, Row>, ids: set<RunId>) returns (o: RunId)
    requires ids != {} && forall x :: x in ids ==> x in rows
    ensures o in ids && forall x :: x in ids ==> !Earlier(rows[x].created, rows[o].created)
  {
    var x :| x in ids;
    Timestamps.Irreflexive(rows[x].created);
    o := x;
    if ids - {x} == {} {
      forall z | z in ids ensures z == x { assert z !in ids - {x}; }
    } else {
      var y := EarliestOf(rows, ids - {x});
      if Earlier(rows[y].created, rows[x].created) { o := y; }
      forall z | z in ids ensures !Earlier(rows[z].created, rows[o].created) {
        if z == x {
          NotBothEarlier(rows[x].created, rows[y].created);
        } else {
          assert z in ids - {x};
          NoneBetween(rows[z].created, rows[x].created, rows[y].created);
        }
      }
    }
  }

  lemma NotBothEarlier(x: Text, y: Text)
    ensures !(Earlier(x, y) && Earlier(y, x))
  {
    if Earlier(x, y) && Earlier(y, x) {
      Timestamps.TextTransitive(x, y, x);
      Timestamps.Irreflexive(x);
    }
  }

  lemma NoneBetween(z: Text, x: Text, y: Text)
    ensures Earlier(z, x) && !Earlier(y, x) ==> Earlier(z, y)
  {
    Timestamps.TextTotal(x, y);
    if Earlier(z, x) && Earlier(x, y) { Timestamps.TextTransitive(z, x, y); }
  }

  /** A new submission under an unused key. */
  lemma Submission(cfg: Config, s: State, c: nat, run: RunId, key: nat)
    requires c !in s.submitters && run !in s.minted && run !in s.rows && !KeyTaken(s.rows, key)
    ensures Enabled(cfg, s, Lookup(c, run, key, 0, None))
    ensures var a := Apply(cfg, s, Lookup(c, run, key, 0, None));
            && a.rows == s.rows && a.workers == s.workers && a.now == s.now
            && Enabled(cfg, a, Insert(c))
            && var b := Apply(cfg, a, Insert(c));
               b.rows == s.rows[run := NewRow(key, 0, Now(cfg, s))] && b.workers == s.workers && b.now == s.now
  {}

  lemma RowsMinted(cfg: Config, s: State)
    requires Invariant(cfg, s)
    ensures forall id :: id in s.rows ==> id in s.minted
  {}

  /** There is something to claim, after a submission if need be. */
  lemma Claimable(cfg: Config, s: State, t: Trace, id: RunId) returns (u: Trace, o: RunId)
    requires Road(cfg, s, t, id) && id in t.Last().rows && cfg.max >= 1
    ensures Road(cfg, s, u, id) && id in u.Last().rows && u.Last().rows[id] == t.Last().rows[id]
    ensures u.Last().workers == t.Last().workers && u.Last().now == t.Last().now
    ensures o in u.Last().rows && Eligible(u.Last().rows[o], Now(cfg, u.Last()), cfg.max)
  {
    hide Apply, Enabled, Invariant, IsPath;
    var a := t.Last();
    if x :| x in a.rows && Eligible(a.rows[x], Now(cfg, a), cfg.max) {
      u, o := t, x;
    } else {
      var c := Outside(a.submitters.Keys);
      var run := Outside(a.minted);
      var keys := set x | x in a.rows :: a.rows[x].key;
      var key := Outside(keys);
      RowsMinted(cfg, a);
      forall x | x in a.rows ensures a.rows[x].key != key { assert a.rows[x].key in keys; }
      Submission(cfg, a, c, run, key);
      u := Go(cfg, s, t, id, Lookup(c, run, key, 0, None));
      u := Go(cfg, s, u, id, Insert(c));
      o := run;
    }
  }

  lemma ClaimEffect(cfg: Config, s: State, w: WorkerId, o: RunId)
    requires w in s.workers && s.workers[w].Idle? && Oldest(s.rows, o, Now(cfg, s), cfg.max)
    ensures Enabled(cfg, s, Claim(w, o))
    ensures var t := Apply(cfg, s, Claim(w, o));
            t.rows == s.rows[o := ClaimRow(s.rows[o], w, Now(cfg, s), Expiry(cfg, s))] && t.workers == s.workers[w := Claiming] && t.now == s.now
  {}

  // --------------------------------------------------------------- the owner reads back

  lemma CancelEffect(cfg: Config, s: State, o: RunId, w: WorkerId)
    requires o in s.rows && Owned(s.rows[o], w)
    ensures Enabled(cfg, s, Cancel(o))
    ensures var t := Apply(cfg, s, Cancel(o));
            t.rows == s.rows[o := CancelRow(s.rows[o], Now(cfg, s))] && t.workers == s.workers && t.now == s.now
  {}

  lemma SelectEffect(cfg: Config, s: State, w: WorkerId, id: RunId)
    requires w in s.workers && s.workers[w].Claiming? && IsSelected(s.rows, w, id)
    ensures Enabled(cfg, s, Select(w, id))
    ensures OnlyWorker(s, Apply(cfg, s, Select(w, id)), w, Working(id, s.rows[id].attempt))
  {}

  ghost function OthersOf(rows: map<RunId, Row>, w: WorkerId, id: RunId): set<RunId> {
    set y | y in rows && y != id && Owned(rows[y], w)
  }

  /** All other rows of the worker are canceled. */
  lemma {:induction false} OthersCanceled(cfg: Config, s: State, t: Trace, id: RunId, w: WorkerId) returns (u: Trace)
    requires Road(cfg, s, t, id) && id in t.Last().rows
    ensures Road(cfg, s, u, id) && id in u.Last().rows && u.Last().rows[id] == t.Last().rows[id]
    ensures u.Last().workers == t.Last().workers && OthersOf(u.Last().rows, w, id) == {}
    decreases |OthersOf(t.Last().rows, w, id)|
  {
    hide Apply, Enabled, Invariant, IsPath, Quiet;
    var a := t.Last();
    u := t;
    if o :| o in OthersOf(a.rows, w, id) {
      CancelEffect(cfg, a, o, w);
      u := Go(cfg, s, u, id, Cancel(o));
      assert OthersOf(u.Last().rows, w, id) == OthersOf(a.rows, w, id) - {o};
      u := OthersCanceled(cfg, s, u, id, w);
    }
  }

  /** A row whose owner is alive can be read back by its owner, where it claims
      something else and that is canceled before the read-back, and then be failed. */
  lemma OwnerMoves(cfg: Config, s: State, t: Trace, id: RunId, w: WorkerId) returns (u: Trace)
    requires Road(cfg, s, t, id) && cfg.max >= 1
    requires id in s.rows && id in t.Last().rows && Owned(t.Last().rows[id], w) && t.Last().rows[id].attempt == s.rows[id].attempt
    requires w in t.Last().workers
    ensures Road(cfg, s, u, id) && Moved(s, u.Last(), id)
  {
    hide Apply, Enabled, Invariant, IsPath, Eligible, Earlier;
    u := ToIdle(cfg, s, t, id, w);
    var x;
    u, x := Claimable(cfg, s, u, id);
    var o := OldestExists(u.Last().rows, Now(cfg, u.Last()), cfg.max, x);
    ClaimEffect(cfg, u.Last(), w, o);
    u := Go(cfg, s, u, id, Claim(w, o));
    if o == id { return; }
    u := OthersCanceled(cfg, s, u, id, w);
    var b := u.Last();
    forall y | y in b.rows && Owned(b.rows[y], w) ensures !Earlier(b.rows[id].updated, b.rows[y].updated) {
      assert y == id by { assert y !in OthersOf(b.rows, w, id); }
      NeverEarlierThanItself(b.rows[id].updated);
    }
    SelectEffect(cfg, b, w, id);
    u := Go(cfg, s, u, id, Select(w, id));
    u := HolderMoves(cfg, s, u, id, w);
  }

  // ------------------------------------------------------------- a new worker reclaims

  /** A claimable row is claimed in the end, after those that are older. */
  lemma {:induction false} ClaimedInTheEnd(cfg: Config, s: State, t: Trace, id: RunId, w: WorkerId) returns (u: Trace)
    requires Road(cfg, s, t, id) && id in s.rows && w in t.Last().workers && t.Last().workers[w].Idle?
    requires id in t.Last().rows && t.Last().rows[id].attempt == s.rows[id].attempt && Eligible(t.Last().rows[id], Now(cfg, t.Last()), cfg.max)
    ensures Road(cfg, s, u, id) && Moved(s, u.Last(), id)
    decreases Remaining(t.Last().rows, cfg.max)
  {
    hide Apply, Enabled, Invariant, IsPath, Remaining;
    var a := t.Last();
    var o := OldestExists(a.rows, Now(cfg, a), cfg.max, id);
    ClaimEffect(cfg, a, w, o);
    u := Go(cfg, s, t, id, Claim(w, o));
    if o != id {
      RemainingUpdate(a.rows, o, u.Last().rows[o], cfg.max);
      WorkerSteps(cfg, u.Last(), w);
      u := Go(cfg, s, u, id, SelectFails(w));
      u := ClaimedInTheEnd(cfg, s, u, id, w);
    }
  }

  lemma StartAndWait(cfg: Config, s: State, w: WorkerId, to: nat)
    requires w !in s.born && s.now <= to
    ensures Enabled(cfg, s, Start(w))
    ensures var a := Apply(cfg, s, Start(w));
            && a.rows == s.rows && a.workers == s.workers[w := Idle] && a.now == s.now
            && Enabled(cfg, a, Advance(to))
            && var b := Apply(cfg, a, Advance(to)); b.rows == s.rows && b.workers == a.workers && b.now == to
  {}

  /** The lease runs out before year 10000. */
  ghost predicate ExpiresInEra(r: Row) {
    exists e: nat :: r.lease == Some(Calendar.Text(e)) && Calendar.InEra(e + 1)
  }

  /** A running row with attempts left is reclaimed once its lease has run out. */
  lemma ReclaimMoves(cfg: Config, s: State, id: RunId) returns (u: Trace)
    requires Invariant(cfg, s) && StandardClock(cfg) && Calendar.InEra(s.now)
    requires id in s.rows && s.rows[id].status == Running && s.rows[id].attempt < cfg.max && ExpiresInEra(s.rows[id])
    ensures Road(cfg, s, u, id) && Moved(s, u.Last(), id)
  {
    var to := WhenExpired(cfg, s, id);
    var w;
    u, w := NewWorkerWaits(cfg, s, id, to);
    hide Apply, Enabled, Invariant, IsPath, Quiet, Eligible, StandardClock, Calendar.InEra, ExpiresInEra, Moved;
    u := ClaimedInTheEnd(cfg, s, u, id, w);
  }

  lemma NewWorkerWaits(cfg: Config, s: State, id: RunId, to: nat) returns (u: Trace, w: WorkerId)
    requires Invariant(cfg, s) && s.now <= to
    ensures Road(cfg, s, u, id) && u.Last().rows == s.rows && u.Last().now == to
    ensures w in u.Last().workers && u.Last().workers[w].Idle?
  {
    u := Here(cfg, s, id);
    hide Apply, Enabled, Invariant, IsPath, Quiet;
    w := Outside(s.born);
    StartAndWait(cfg, s, w, to);
    u := Go(cfg, s, u, id, Start(w));
    u := Go(cfg, s, u, id, Advance(to));
  }

  /** A time at which the text of the lease is earlier than the clock's. */
  lemma WhenExpired(cfg: Config, s: State, id: RunId) returns (to: nat)
    requires StandardClock(cfg) && Calendar.InEra(s.now)
    requires id in s.rows && s.rows[id].status == Running && s.rows[id].attempt < cfg.max && ExpiresInEra(s.rows[id])
    ensures s.now <= to && Eligible(s.rows[id], cfg.text(to), cfg.max)
  {
    hide Calendar.InEra, Calendar.Text;
    var e: nat :| s.rows[id].lease == Some(Calendar.Text(e)) && Calendar.InEra(e + 1);
    to := if s.now < e + 1 then e + 1 else s.now;
    Calendar.EraBefore(e, e + 1);
    Calendar.TextOrder(e, to);
  }

  lemma Here(cfg: Config, s: State, id: RunId) returns (t: Trace)
    requires Invariant(cfg, s)
    ensures Road(cfg, s, t, id) && t.Last() == s
  {
    t := Trace([s], []);
  }

  // -------------------------------------------------------------------- exactly stuck

  /** Some continuation moves the row without canceling it. */
  ghost predicate CanMove(cfg: Config, s: State, id: RunId) {
    exists t: Trace :: t.From(cfg, s) && Quiet(t, id) && Moved(s, t.Last(), id)
  }

  /** A running row can still leave `running`, or be claimed again, without being
      canceled, if and only if it is not stuck: attempts exhausted, its owner
      gone, and nobody left who could fail it. */
  lemma StuckExactly(cfg: Config, states: seq<State>, steps: seq<Step>, i: nat, id: RunId)
    requires IsRun(cfg, states, steps) && i < |states| && StandardClock(cfg) && Calendar.InEra(states[i].now) && cfg.max >= 1
    requires id in states[i].rows && states[i].rows[id].status == Running && ExpiresInEra(states[i].rows[id])
    ensures CanMove(cfg, states[i], id) <==> !Stuck(cfg, states[i], id)
  {
    hide Apply, Enabled, IsPath, StandardClock, Calendar.InEra, ExpiresInEra;
    var s := states[i];
    AlwaysInvariant(cfg, states, steps, i);
    if Stuck(cfg, s, id) {
      forall t: Trace | t.From(cfg, s) && Quiet(t, id) ensures !Moved(s, t.Last(), id) {
        StuckForever(cfg, s, t, id, |t.states| - 1);
      }
    } else {
      var t := NotStuckMoves(cfg, s, id);
      assert t.From(cfg, s) && Quiet(t, id) && Moved(s, t.Last(), id);
    }
  }

  lemma NotStuckMoves(cfg: Config, s: State, id: RunId) returns (t: Trace)
    requires Invariant(cfg, s) && StandardClock(cfg) && Calendar.InEra(s.now) && cfg.max >= 1
    requires id in s.rows && s.rows[id].status == Running && ExpiresInEra(s.rows[id]) && !Stuck(cfg, s, id)
    ensures Road(cfg, s, t, id) && Moved(s, t.Last(), id)
  {
    var w := OwnerOf(cfg, s, id);
    if s.rows[id].attempt < cfg.max {
      t := ReclaimMoves(cfg, s, id);
    } else {
      t := Here(cfg, s, id);
      hide Apply, Enabled, Invariant, IsPath, Quiet, StandardClock, Calendar.InEra, ExpiresInEra, Moved;
      if w in s.workers {
        t := OwnerMoves(cfg, s, t, id, w);
      } else {
        var v := Reacher(cfg, s, id);
        t := HolderMoves(cfg, s, t, id, v);
      }
    }
  }

  lemma Reacher(cfg: Config, s: State, id: RunId) returns (v: WorkerId)
    requires id in s.rows && s.rows[id].status == Running && s.rows[id].attempt >= cfg.max && s.rows[id].worker.Some?
    requires s.rows[id].worker.value in s.born && s.rows[id].worker.value !in s.workers && !Stuck(cfg, s, id)
    ensures v in s.workers && Holds(s.workers[v]) && s.workers[v].run == id && !s.workers[v].Finishing?
  {
    v :| v in s.workers && Holds(s.workers[v]) && s.workers[v].run == id && !(s.workers[v].Finishing? && s.rows[id].worker != Some(v));
  }

  lemma OwnerOf(cfg: Config, s: State, id: RunId) returns (w: WorkerId)
    requires Invariant(cfg, s) && id in s.rows && s.rows[id].status == Running
    ensures s.rows[id].worker == Some(w) && w in s.born && Owned(s.rows[id], w)
  {
    assert RowOk(s.rows[id], cfg.max);
    w := s.rows[id].worker.value;
  }
}
