/** What holds in every run of the service, in every interleaving, and what
    holds with the single pinned worker only. */
module LeaseTheorems {
  import opened Options
  import opened LeaseRows
  import opened LeaseProtocol
  import Calendar

  // ---------------------------------------------------------------- submissions

  ghost predicate KeysUnique(s: State) {
    forall a, b :: a in s.rows && b in s.rows && s.rows[a].key == s.rows[b].key ==> a == b
  }

  /** The run id a submission brought along. */
  function OwnRun(pc: Submitter): RunId {
    match pc
    case Entering(run, _, _) => run
    case Refused(run, _, _) => run
    case Answered(own, _, _, _) => own
  }

  /** Run ids are fresh: no two submissions share one, and only the
      submission's own insert makes the row. */
  ghost predicate RunsFresh(s: State) {
    && (forall id :: id in s.rows ==> id in s.minted)
    && (forall c :: c in s.submitters ==> OwnRun(s.submitters[c]) in s.minted)
    && (forall c, d :: c in s.submitters && d in s.submitters && OwnRun(s.submitters[c]) == OwnRun(s.submitters[d]) ==> c == d)
    && (forall c :: c in s.submitters && s.submitters[c].Entering? ==> s.submitters[c].run !in s.rows)
  }

  ghost predicate HeldBy(rows: map<RunId, Row>, run: RunId, key: nat, digest: nat) {
    run in rows && rows[run].key == key && rows[run].digest == digest
  }

  ghost predicate OtherDigest(rows: map<RunId, Row>, key: nat, digest: nat) {
    exists id :: id in rows && rows[id].key == key && rows[id].digest != digest
  }

  /** What an answer promises. */
  ghost predicate AnswerTrue(rows: map<RunId, Row>, pc: Submitter) {
    match pc
    case Entering(_, _, _) => true
    case Refused(_, key, _) => KeyTaken(rows, key)
    case Answered(own, key, digest, answer) =>
      match answer
      case Created(run) => run == own && HeldBy(rows, run, key, digest)
      case Existing(run) => HeldBy(rows, run, key, digest)
      case Conflict => OtherDigest(rows, key, digest)
  }

  ghost predicate AnswersTrue(s: State) {
    forall c :: c in s.submitters ==> AnswerTrue(s.rows, s.submitters[c])
  }

  ghost predicate SubmissionsOk(s: State) {
    KeysUnique(s) && RunsFresh(s) && AnswersTrue(s)
  }

  /** No step renames a row, changes its digest, or removes it. */
  lemma IdentityKept(cfg: Config, s: State, step: Step, id: RunId)
    requires Enabled(cfg, s, step) && id in s.rows
    ensures id in Apply(cfg, s, step).rows && SameIdentity(s.rows[id], Apply(cfg, s, step).rows[id])
  {
    RowChange(cfg, s, step, id);
  }

  lemma KeysUniqueKept(cfg: Config, s: State, step: Step)
    requires Enabled(cfg, s, step) && KeysUnique(s)
    ensures KeysUnique(Apply(cfg, s, step))
  {
    hide Apply, Enabled;
    var t := Apply(cfg, s, step);
    forall a, b | a in t.rows && b in t.rows && t.rows[a].key == t.rows[b].key ensures a == b {
      if a in s.rows { IdentityKept(cfg, s, step, a); } else { RowBirth(cfg, s, step, a); }
      if b in s.rows { IdentityKept(cfg, s, step, b); } else { RowBirth(cfg, s, step, b); }
    }
  }

  /** A promise kept by some rows is kept by rows that only grew. */
  lemma AnswerStaysTrue(cfg: Config, s: State, step: Step, pc: Submitter)
    requires Enabled(cfg, s, step) && AnswerTrue(s.rows, pc)
    ensures AnswerTrue(Apply(cfg, s, step).rows, pc)
  {
    hide Apply, Enabled;
    var t := Apply(cfg, s, step);
    match pc
    case Entering(_, _, _) =>
    case Refused(_, key, _) =>
      var id :| id in s.rows && s.rows[id].key == key;
      IdentityKept(cfg, s, step, id);
    case Answered(own, key, digest, answer) =>
      match answer
      case Created(run) => IdentityKept(cfg, s, step, run);
      case Existing(run) => IdentityKept(cfg, s, step, run);
      case Conflict =>
        var id :| id in s.rows && s.rows[id].key == key && s.rows[id].digest != digest;
        IdentityKept(cfg, s, step, id);
  }

  /** The submission a step moves, and what it is told. */
  lemma SubmitterChange(cfg: Config, s: State, step: Step, c: nat)
    requires Enabled(cfg, s, step) && SubmissionsOk(s) && c in Apply(cfg, s, step).submitters
    ensures var t := Apply(cfg, s, step);
            (c in s.submitters && t.submitters[c] == s.submitters[c]) || AnswerTrue(t.rows, t.submitters[c])
  {
    var t := Apply(cfg, s, step);
    match step
    case Lookup(x, run, key, digest, found) =>
      if x == c && found.Some? { LookupAnswer(s.rows, run, key, digest, found.value); }
    case Insert(x) => if x == c { InsertAnswer(cfg, s, step); }
    case Reread(x, found) =>
      if x == c {
        var e := s.submitters[c];
        assert AnswerTrue(s.rows, e);
        assert found.Some?;
        LookupAnswer(s.rows, e.run, e.key, e.digest, found.value);
      }
    case _ =>
  }

  lemma LookupAnswer(rows: map<RunId, Row>, own: RunId, key: nat, digest: nat, found: RunId)
    requires found in rows && rows[found].key == key
    ensures AnswerTrue(rows, Answered(own, key, digest, AnswerFor(rows, digest, found)))
  {}

  lemma InsertAnswer(cfg: Config, s: State, step: Step)
    requires step.Insert? && Enabled(cfg, s, step) && RunsFresh(s)
    ensures AnswerTrue(Apply(cfg, s, step).rows, Apply(cfg, s, step).submitters[step.c])
  {
    assert s.submitters[step.c].run !in s.rows;
  }

  lemma AnswersTrueKept(cfg: Config, s: State, step: Step)
    requires Enabled(cfg, s, step) && SubmissionsOk(s)
    ensures AnswersTrue(Apply(cfg, s, step))
  {
    hide Apply, Enabled, SubmissionsOk, AnswerTrue;
    var t := Apply(cfg, s, step);
    forall c | c in t.submitters ensures AnswerTrue(t.rows, t.submitters[c]) {
      SubmitterChange(cfg, s, step, c);
      if c in s.submitters && t.submitters[c] == s.submitters[c] {
        SubmissionsAnswer(s, c);
        AnswerStaysTrue(cfg, s, step, s.submitters[c]);
      }
    }
  }

  lemma SubmissionsAnswer(s: State, c: nat)
    requires SubmissionsOk(s) && c in s.submitters
    ensures AnswerTrue(s.rows, s.submitters[c])
  {}

  /** A submission keeps its run id; a new one brings an unused id. */
  lemma OwnRuns(cfg: Config, s: State, step: Step, c: nat)
    requires Enabled(cfg, s, step) && c in Apply(cfg, s, step).submitters
    ensures var t := Apply(cfg, s, step);
            && (c in s.submitters ==> OwnRun(t.submitters[c]) == OwnRun(s.submitters[c]))
            && (c !in s.submitters ==> OwnRun(t.submitters[c]) !in s.minted && step.Lookup? && step.c == c)
            && s.minted <= t.minted
            && (c !in s.submitters ==> OwnRun(t.submitters[c]) in t.minted)
  {
  }

  lemma MintedGrows(cfg: Config, s: State, step: Step)
    requires Enabled(cfg, s, step)
    ensures s.minted <= Apply(cfg, s, step).minted
  {
  }

  lemma RunsFreshKept(cfg: Config, s: State, step: Step)
    requires Enabled(cfg, s, step) && RunsFresh(s)
    ensures RunsFresh(Apply(cfg, s, step))
  {
    hide Apply, Enabled;
    var t := Apply(cfg, s, step);
    MintedGrows(cfg, s, step);
    forall id | id in t.rows ensures id in t.minted {
      if id !in s.rows { RowBirth(cfg, s, step, id); InsertingIsEntering(cfg, s, step); }
    }
    forall c | c in t.submitters ensures OwnRun(t.submitters[c]) in t.minted { OwnRuns(cfg, s, step, c); }
    forall c, d | c in t.submitters && d in t.submitters && OwnRun(t.submitters[c]) == OwnRun(t.submitters[d]) ensures c == d {
      OwnRuns(cfg, s, step, c);
      OwnRuns(cfg, s, step, d);
    }
    forall c | c in t.submitters && t.submitters[c].Entering? ensures t.submitters[c].run !in t.rows {
      var run := t.submitters[c].run;
      EnteringStays(cfg, s, step, c);
      if run in t.rows {
        RowBirth(cfg, s, step, run);
        InsertingIsEntering(cfg, s, step);
        OwnRuns(cfg, s, step, c);
      }
    }
  }

  lemma InsertingIsEntering(cfg: Config, s: State, step: Step)
    requires Enabled(cfg, s, step) && step.Insert?
    ensures step.c in s.submitters && s.submitters[step.c].Entering?
  {}

  lemma EnteringStays(cfg: Config, s: State, step: Step, c: nat)
    requires Enabled(cfg, s, step) && RunsFresh(s)
    requires c in Apply(cfg, s, step).submitters && Apply(cfg, s, step).submitters[c].Entering?
    ensures Apply(cfg, s, step).submitters[c].run !in s.rows
    ensures step.Insert? ==> step.c != c
  {
  }

  // ------------------------------------------------------------------- attempts

  /** Every run has been claimed exactly as often as its counter says. */
  ghost predicate ClaimsCounted(s: State) {
    && (forall id :: id in s.claims <==> id in s.rows)
    && (forall id :: id in s.rows ==> s.claims[id] == s.rows[id].attempt)
  }

  lemma ClaimsCountedKept(cfg: Config, s: State, step: Step)
    requires Enabled(cfg, s, step) && ClaimsCounted(s)
    ensures ClaimsCounted(Apply(cfg, s, step))
  {}

  // -------------------------------------------------------------- owners and times

  /** Workers and owners have been started. */
  ghost predicate OwnersBorn(s: State) {
    && (forall w :: w in s.workers ==> w in s.born)
    && (forall id :: id in s.rows && s.rows[id].worker.Some? ==> s.rows[id].worker.value in s.born)
  }

  lemma BornGrows(cfg: Config, s: State, step: Step)
    requires Enabled(cfg, s, step) && OwnersBorn(s)
    ensures s.born <= Apply(cfg, s, step).born
    ensures forall w :: w in Apply(cfg, s, step).workers ==> w in Apply(cfg, s, step).born
    ensures step.Claim? ==> step.w in s.born
  {}

  lemma OwnersBornKept(cfg: Config, s: State, step: Step)
    requires Enabled(cfg, s, step) && OwnersBorn(s)
    ensures OwnersBorn(Apply(cfg, s, step))
  {
    BornGrows(cfg, s, step);
    hide Apply, Enabled;
    var t := Apply(cfg, s, step);
    forall id | id in t.rows && t.rows[id].worker.Some? ensures t.rows[id].worker.value in t.born {
      if id in s.rows { RowChange(cfg, s, step, id); } else { RowBirth(cfg, s, step, id); }
    }
  }

  /** The text is one that the clock wrote for a time up to `now`. */
  ghost predicate Written(cfg: Config, text: Text, now: nat) {
    exists u: nat :: u <= now && text == cfg.text(u)
  }

  /** The lease text is one that the clock wrote for some time. */
  ghost predicate LeaseWritten(cfg: Config, r: Row) {
    r.lease.Some? ==> exists e: nat :: r.lease.value == cfg.text(e)
  }

  ghost predicate TextsWritten(cfg: Config, s: State) {
    forall id :: id in s.rows ==> LeaseWritten(cfg, s.rows[id]) && Written(cfg, s.rows[id].updated, s.now)
  }

  lemma ClockGoesOn(cfg: Config, s: State, step: Step)
    requires Enabled(cfg, s, step)
    ensures s.now <= Apply(cfg, s, step).now
  {}

  lemma TextsWrittenKept(cfg: Config, s: State, step: Step)
    requires Enabled(cfg, s, step) && TextsWritten(cfg, s)
    ensures TextsWritten(cfg, Apply(cfg, s, step))
  {
    ClockGoesOn(cfg, s, step);
    hide Apply, Enabled;
    var t := Apply(cfg, s, step);
    assert Written(cfg, Now(cfg, s), t.now);
    forall id | id in t.rows ensures LeaseWritten(cfg, t.rows[id]) && Written(cfg, t.rows[id].updated, t.now) {
      if id in s.rows {
        var u: nat :| u <= s.now && s.rows[id].updated == cfg.text(u);
        assert Written(cfg, s.rows[id].updated, t.now);
        RowChange(cfg, s, step, id);
      } else {
        RowBirth(cfg, s, step, id);
      }
    }
  }

  // ------------------------------------------------------------- all interleavings

  ghost predicate Invariant(cfg: Config, s: State) {
    RowsOk(cfg, s) && Durable(s) && SubmissionsOk(s) && ClaimsCounted(s) && OwnersBorn(s) && TextsWritten(cfg, s)
  }

  lemma InvariantKept(cfg: Config, s: State, step: Step)
    requires Enabled(cfg, s, step) && Invariant(cfg, s)
    ensures Invariant(cfg, Apply(cfg, s, step))
  {
    hide Apply, Enabled, RowsOk, Durable, KeysUnique, RunsFresh, AnswersTrue, ClaimsCounted, OwnersBorn, TextsWritten;
    RowsOkKept(cfg, s, step);
    DurableKept(cfg, s, step);
    KeysUniqueKept(cfg, s, step);
    RunsFreshKept(cfg, s, step);
    AnswersTrueKept(cfg, s, step);
    ClaimsCountedKept(cfg, s, step);
    OwnersBornKept(cfg, s, step);
    TextsWrittenKept(cfg, s, step);
  }

  /** In every interleaving of submissions, workers, cancellations and crashes,
      the invariant holds in every state. */
  lemma {:induction false} AlwaysInvariant(cfg: Config, states: seq<State>, steps: seq<Step>, i: nat)
    requires IsRun(cfg, states, steps) && i < |states|
    ensures Invariant(cfg, states[i])
  {
    if i > 0 {
      AlwaysInvariant(cfg, states, steps, i - 1);
      InvariantKept(cfg, states[i - 1], steps[i - 1]);
    }
  }

  /** Completion is durable: over every run, a row with a result pointer leads to
      a stored row with the identity it was completed with, from then on. */
  lemma {:induction false} CompletionIsDurable(cfg: Config, states: seq<State>, steps: seq<Step>, i: nat, j: nat, id: RunId)
    requires IsRun(cfg, states, steps) && i <= j < |states|
    requires id in states[i].rows && states[i].rows[id].resultId.Some?
    ensures var r := states[i].rows[id];
            && r.completion.Some? && r.resultId.value in states[j].results
            && states[j].results[r.resultId.value] == r.completion.value
    decreases j - i
  {
    hide Apply, Enabled, RowsOk, SubmissionsOk, ClaimsCounted;
    if i == j {
      AlwaysInvariant(cfg, states, steps, i);
      assert BackedBy(states[i].rows[id], states[i].results);
    } else {
      CompletionIsDurable(cfg, states, steps, i, j - 1, id);
      ResultsNeverChange(cfg, states[j - 1], steps[j - 1]);
    }
  }

  /** A run is claimed at most `max` times, in every interleaving. */
  lemma BoundedAttempts(cfg: Config, states: seq<State>, steps: seq<Step>, i: nat, id: RunId)
    requires IsRun(cfg, states, steps) && i < |states| && id in states[i].claims
    ensures states[i].claims[id] <= cfg.max
  {
    AlwaysInvariant(cfg, states, steps, i);
    assert RowOk(states[i].rows[id], cfg.max);
  }

  /** Submission is idempotent: over every run, two successful answers under one
      key name the same run and carry the same digest; at most one of them says
      `created`; and a conflict means the key holds another digest. */
  lemma SubmissionIsIdempotent(cfg: Config, states: seq<State>, steps: seq<Step>, i: nat, c: nat, d: nat)
    requires IsRun(cfg, states, steps) && i < |states|
    requires c in states[i].submitters && d in states[i].submitters
    requires states[i].submitters[c].Answered? && states[i].submitters[d].Answered?
    requires states[i].submitters[c].key == states[i].submitters[d].key
    ensures var a, b := states[i].submitters[c], states[i].submitters[d];
            && (!a.answer.Conflict? && !b.answer.Conflict? ==> a.answer.run == b.answer.run && a.digest == b.digest)
            && (a.answer.Created? && b.answer.Created? ==> c == d)
            && (!a.answer.Conflict? && b.answer.Conflict? ==> a.digest != b.digest)
  {
    AlwaysInvariant(cfg, states, steps, i);
    var s := states[i];
    assert AnswerTrue(s.rows, s.submitters[c]) && AnswerTrue(s.rows, s.submitters[d]);
  }

  /** What a submission sends.  The digest covers the input alone. */
  datatype Envelope = Envelope(key: nat, input: nat, request: nat, correlation: nat)

  function RequestDigest(hash: nat -> nat, e: Envelope): nat { hash(e.input) }

  predicate Submits(pc: Submitter, hash: nat -> nat, e: Envelope) {
    pc.Answered? && pc.key == e.key && pc.digest == RequestDigest(hash, e)
  }

  /** Under one key the same input gets the same answer, whatever else differs; and
      where the hash tells two inputs apart, at most one of them gets a run. */
  lemma InputDecides(cfg: Config, states: seq<State>, steps: seq<Step>, i: nat, c: nat, d: nat, hash: nat -> nat, e: Envelope, f: Envelope)
    requires IsRun(cfg, states, steps) && i < |states| && e.key == f.key
    requires c in states[i].submitters && Submits(states[i].submitters[c], hash, e)
    requires d in states[i].submitters && Submits(states[i].submitters[d], hash, f)
    ensures var a, b := states[i].submitters[c].answer, states[i].submitters[d].answer;
            && (e.input == f.input ==> (a.Conflict? <==> b.Conflict?) && (!a.Conflict? ==> a.run == b.run))
            && (hash(e.input) != hash(f.input) ==> a.Conflict? || b.Conflict?)
  {
    SubmissionIsIdempotent(cfg, states, steps, i, c, d);
    SubmissionIsIdempotent(cfg, states, steps, i, d, c);
  }

  // --------------------------------------------------------------------- live leases

  /** The clock is written in the fixed-width layout. */
  ghost predicate StandardClock(cfg: Config) { forall t :: cfg.text(t) == Calendar.Text(t) }

  /** The row's lease has not run out at time `now`. */
  ghost predicate LiveLease(r: Row, now: nat) {
    exists e: nat :: now <= e && Calendar.InEra(e) && r.lease == Some(Calendar.Text(e))
  }

  /** The comparison of texts that the claim makes does not hold of a live lease. */
  lemma LiveIsNotExpired(cfg: Config, r: Row, now: nat)
    requires StandardClock(cfg) && LiveLease(r, now) && r.status == Running
    ensures !Eligible(r, cfg.text(now), cfg.max)
  {
    hide Calendar.Text, Calendar.InEra;
    var e: nat :| now <= e && Calendar.InEra(e) && r.lease == Some(Calendar.Text(e));
    Calendar.EraBefore(now, e);
    Calendar.TextOrder(e, now);
  }

  /** A claim and a heartbeat make the lease live for its whole length. */
  lemma LeaseGranted(cfg: Config, s: State, step: Step, w: WorkerId, id: RunId, now: nat)
    requires StandardClock(cfg) && Enabled(cfg, s, step) && id in s.rows
    requires step == Claim(w, id) || (step == Beat(w, id) && HeartbeatFits(s.rows[id], w))
    requires s.now <= now <= s.now + cfg.leaseSeconds * Calendar.SECOND && Calendar.InEra(s.now + cfg.leaseSeconds * Calendar.SECOND)
    ensures LiveLease(Apply(cfg, s, step).rows[id], now)
  {
    hide Calendar.Text, Calendar.InEra;
    var e := s.now + cfg.leaseSeconds * Calendar.SECOND;
    assert Apply(cfg, s, step).rows[id].lease == Some(Calendar.Text(e));
  }

  ghost predicate StillLeased(r: Row, r': Row) {
    r'.status == Running && r'.worker == r.worker && r'.attempt == r.attempt
  }

  /** The statement that took the row from its owner: its own completion, a failure
      or a cancellation. */
  ghost predicate TakesAway(s: State, step: Step, id: RunId) {
    || step == Cancel(id)
    || (step.Complete? && step.w in s.workers && s.workers[step.w].Finishing? && s.workers[step.w].run == id
        && id in s.rows && s.rows[id].worker == Some(step.w))
    || (step.Fail? && step.w in s.workers && s.workers[step.w].Failing? && s.workers[step.w].run == id)
  }

  lemma LeaseStep(cfg: Config, s: State, step: Step, id: RunId)
    requires StandardClock(cfg) && Enabled(cfg, s, step) && id in s.rows && s.rows[id].status == Running && LiveLease(s.rows[id], s.now)
    ensures id in Apply(cfg, s, step).rows
    ensures !(step.Claim? && step.id == id)
    ensures StillLeased(s.rows[id], Apply(cfg, s, step).rows[id]) || TakesAway(s, step, id)
  {
    LiveIsNotExpired(cfg, s.rows[id], s.now);
    RowChange(cfg, s, step, id);
  }

  /** Over every run: while the lease of a running row is live, the row is not
      reclaimed.  It keeps its worker and its attempt up to the last state, or up
      to the statement that completed, failed or canceled it. */
  lemma {:induction false} LiveLeaseKept(cfg: Config, states: seq<State>, steps: seq<Step>, i: nat, j: nat, id: RunId) returns (k: nat)
    requires StandardClock(cfg) && IsRun(cfg, states, steps) && i <= j < |states|
    requires id in states[i].rows && states[i].rows[id].status == Running
    requires forall m :: i <= m < j && id in states[m].rows && states[m].rows[id].status == Running ==> LiveLease(states[m].rows[id], states[m].now)
    ensures i <= k <= j
    ensures forall m :: i <= m <= k ==> id in states[m].rows && StillLeased(states[i].rows[id], states[m].rows[id])
    ensures forall m :: i <= m < k ==> !(steps[m].Claim? && steps[m].id == id)
    ensures k < j ==> TakesAway(states[k], steps[k], id)
    decreases j - i
  {
    hide Apply, Enabled, LiveLease, StandardClock, TakesAway;
    if i == j {
      k := i;
    } else {
      k := LiveLeaseKept(cfg, states, steps, i, j - 1, id);
      if k == j - 1 {
        LeaseStep(cfg, states[k], steps[k], id);
        if StillLeased(states[k].rows[id], states[j].rows[id]) { k := j; }
      }
    }
  }

  /** Fencing: a heartbeat or a completion by a worker that does not own the row
      changes no row. */
  lemma NonOwnerChangesNothing(cfg: Config, s: State, step: Step)
    requires Enabled(cfg, s, step)
    requires step.Beat? || step.Complete?
    requires var id := if step.Beat? then step.id else s.workers[step.w].run;
             id in s.rows ==> s.rows[id].worker != Some(step.w)
    ensures Apply(cfg, s, step).rows == s.rows
  {}

  // ---------------------------------------------------------- one pinned worker

  /** The worker's run and the attempt it read, while it holds one. */
  predicate Holds(pc: Worker) {
    !pc.Idle? && !pc.Claiming?
  }

  /** At most one live worker.  The run it holds is still its own at the attempt
      it read, unless it was canceled meanwhile; and whatever is queued has
      attempts left. */
  ghost predicate Pinned(cfg: Config, s: State) {
    && (forall w :: w in s.workers ==> w in s.born)
    && (forall v, w :: v in s.workers && w in s.workers ==> v == w)
    && (forall w :: w in s.workers && Holds(s.workers[w]) ==> HeldRow(s, w))
    && (forall id :: id in s.rows && s.rows[id].status == Queued ==> s.rows[id].attempt < cfg.max)
  }

  ghost predicate HeldRow(s: State, w: WorkerId)
    requires w in s.workers && Holds(s.workers[w])
  {
    var pc := s.workers[w];
    && pc.run in s.rows && s.rows[pc.run].attempt == pc.attempt
    && (Owned(s.rows[pc.run], w) || s.rows[pc.run].status == Canceled)
  }

  /** A step of the service while a single replica runs the worker. */
  ghost predicate PinnedStep(cfg: Config, s: State, step: Step) {
    Enabled(cfg, s, step) && (step.Start? ==> s.workers == map[])
  }

  lemma PinnedWorkers(cfg: Config, s: State, step: Step)
    requires PinnedStep(cfg, s, step) && Pinned(cfg, s)
    ensures var t := Apply(cfg, s, step);
            && (forall w :: w in t.workers ==> w in t.born)
            && (forall v, w :: v in t.workers && w in t.workers ==> v == w)
  {
  }

  /** A worker keeps what it holds, or took it by selecting its own row. */
  lemma HoldChange(cfg: Config, s: State, step: Step, w: WorkerId)
    requires Enabled(cfg, s, step) && w in Apply(cfg, s, step).workers && Holds(Apply(cfg, s, step).workers[w])
    ensures var pc := Apply(cfg, s, step).workers[w];
            || (w in s.workers && Holds(s.workers[w]) && s.workers[w].run == pc.run && s.workers[w].attempt == pc.attempt
                && !(step.Claim? && step.w == w) && !(step.Fail? && step.w == w) && !(step.Complete? && step.w == w))
            || (step == Select(w, pc.run) && Apply(cfg, s, step).rows == s.rows && pc.run in s.rows
                && Owned(s.rows[pc.run], w) && s.rows[pc.run].attempt == pc.attempt)
  {
  }

  lemma PinnedHolds(cfg: Config, s: State, step: Step, w: WorkerId)
    requires PinnedStep(cfg, s, step) && Pinned(cfg, s)
    requires w in Apply(cfg, s, step).workers && Holds(Apply(cfg, s, step).workers[w])
    ensures HeldRow(Apply(cfg, s, step), w)
  {
    HoldChange(cfg, s, step, w);
    var t := Apply(cfg, s, step);
    var pc := t.workers[w];
    if w in s.workers && Holds(s.workers[w]) {
      assert HeldRow(s, w);
      RowChange(cfg, s, step, s.workers[w].run);
      OnlyWorkerActs(cfg, s, step, w);
    }
  }

  /** With one worker, every worker statement is that worker's. */
  lemma OnlyWorkerActs(cfg: Config, s: State, step: Step, w: WorkerId)
    requires PinnedStep(cfg, s, step) && Pinned(cfg, s) && w in s.workers
    ensures step.Claim? || step.Beat? || step.Complete? || step.Fail? ==> step.w == w
  {}

  lemma PinnedQueued(cfg: Config, s: State, step: Step, id: RunId)
    requires PinnedStep(cfg, s, step) && Pinned(cfg, s) && cfg.max >= 1
    requires id in Apply(cfg, s, step).rows && Apply(cfg, s, step).rows[id].status == Queued
    ensures Apply(cfg, s, step).rows[id].attempt < cfg.max
  {
    if id in s.rows {
      RowChange(cfg, s, step, id);
      if step.Fail? && s.workers[step.w].run == id { assert HeldRow(s, step.w); }
    } else {
      RowBirth(cfg, s, step, id);
    }
  }

  lemma PinnedKept(cfg: Config, s: State, step: Step)
    requires PinnedStep(cfg, s, step) && Pinned(cfg, s) && cfg.max >= 1
    ensures Pinned(cfg, Apply(cfg, s, step))
  {
    PinnedWorkers(cfg, s, step);
    var t := Apply(cfg, s, step);
    forall w | w in t.workers && Holds(t.workers[w]) ensures HeldRow(t, w) { PinnedHolds(cfg, s, step, w); }
    forall id | id in t.rows && t.rows[id].status == Queued ensures t.rows[id].attempt < cfg.max {
      PinnedQueued(cfg, s, step, id);
    }
  }

  ghost predicate IsPinnedRun(cfg: Config, states: seq<State>, steps: seq<Step>) {
    IsRun(cfg, states, steps) && forall i :: 0 <= i < |steps| ==> PinnedStep(cfg, states[i], steps[i])
  }

  /** Under the single worker, in every state of every run: what is held is
      owned or canceled, and every queued row can still be claimed. */
  lemma {:induction false} AlwaysPinned(cfg: Config, states: seq<State>, steps: seq<Step>, i: nat)
    requires IsPinnedRun(cfg, states, steps) && i < |states| && cfg.max >= 1
    ensures Pinned(cfg, states[i])
  {
    if i > 0 {
      AlwaysPinned(cfg, states, steps, i - 1);
      PinnedKept(cfg, states[i - 1], steps[i - 1]);
    }
  }

  /** Under the single worker, completed and failed rows never change again, and
      a canceled row is left only by the statement that records a failure. */
  lemma TerminalStates(cfg: Config, states: seq<State>, steps: seq<Step>, i: nat, id: RunId)
    requires IsPinnedRun(cfg, states, steps) && i < |steps| && cfg.max >= 1
    requires id in states[i].rows && Terminal(states[i].rows[id].status)
    ensures id in states[i + 1].rows
    ensures states[i].rows[id].status != Canceled ==> states[i + 1].rows[id] == states[i].rows[id]
    ensures states[i + 1].rows[id] != states[i].rows[id] ==>
              && steps[i].Fail? && steps[i].ok
              && steps[i].w in states[i].workers && states[i].workers[steps[i].w] == Failing(id, states[i].rows[id].attempt)
  {
    var s, step := states[i], steps[i];
    AlwaysInvariant(cfg, states, steps, i);
    AlwaysPinned(cfg, states, steps, i);
    assert PinnedStep(cfg, s, step);
    RowChange(cfg, s, step, id);
    assert RowOk(s.rows[id], cfg.max);
    if step.Fail? && s.workers[step.w].run == id { assert HeldRow(s, step.w); }
  }
}
