/** The service as a transition system: submitters, workers, cancellations,
    crashes and the clock, interleaved statement by statement over the queue
    rows and the immutable result table. */
module LeaseProtocol {
  import opened Options
  import opened LeaseRows
  import Calendar

  /** `text` is how a clock reading, in microseconds, is written. */
  datatype Config = Config(max: nat, leaseSeconds: nat, text: nat -> Text)

  /** What a translation produced: a result id and the identity to be stored. */
  datatype Result = Result(id: ResultId, stored: Stored)

  /** Where a worker is between two statements.  `attempt` is the counter it
      read when it selected the run. */
  datatype Worker =
    | Idle
    | Claiming
    | Working(run: RunId, attempt: nat)
    | Publishing(run: RunId, attempt: nat, result: Result)
    | Verifying(run: RunId, attempt: nat, result: Result)
    | Finishing(run: RunId, attempt: nat, result: Result)
    | Failing(run: RunId, attempt: nat)

  datatype Answer = Created(run: RunId) | Existing(run: RunId) | Conflict

  /** Where a submission is between its lookup, its insert and its re-read. */
  datatype Submitter =
    | Entering(run: RunId, key: nat, digest: nat)
    | Refused(run: RunId, key: nat, digest: nat)
    | Answered(own: RunId, key: nat, digest: nat, answer: Answer)

  /** `claims` and `origin` are history: how often each run was claimed, and for
      which run each result row was inserted. */
  datatype State = State(
    rows: map<RunId, Row>, results: map<ResultId, Stored>,
    workers: map<WorkerId, Worker>, born: set<WorkerId>,
    submitters: map<nat, Submitter>, minted: set<RunId>,
    claims: map<RunId, nat>, origin: map<ResultId, RunId>, now: nat)

  const INIT: State := State(map[], map[], map[], {}, map[], {}, map[], map[], 0)

  /** The clock as the statements write it. */
  function Now(cfg: Config, s: State): Text { cfg.text(s.now) }

  function Expiry(cfg: Config, s: State): Text { cfg.text(s.now + cfg.leaseSeconds * Calendar.SECOND) }

  datatype Step =
    | Advance(to: nat)
    | Lookup(c: nat, run: RunId, key: nat, digest: nat, found: Option<RunId>)
    | Insert(c: nat)
    | Reread(c: nat, found: Option<RunId>)
    | Start(w: WorkerId)
    | Crash(w: WorkerId)
    | Claim(w: WorkerId, id: RunId)
    | Select(w: WorkerId, id: RunId)
    | SelectNothing(w: WorkerId)
    | SelectFails(w: WorkerId)
    | Settle(w: WorkerId, result: Result, readOk: bool)
    | Beat(w: WorkerId, id: RunId)
    | Merge(w: WorkerId, effect: bool, ok: bool)
    | Verify(w: WorkerId, readOk: bool)
    | Complete(w: WorkerId, ok: bool)
    | Fail(w: WorkerId, ok: bool)
    | Cancel(id: RunId)

  ghost predicate KeyTaken(rows: map<RunId, Row>, key: nat) {
    exists id :: id in rows && rows[id].key == key
  }

  /** The row found under a key, if any. */
  ghost predicate IsLookup(rows: map<RunId, Row>, key: nat, found: Option<RunId>) {
    if found.Some? then found.value in rows && rows[found.value].key == key else !KeyTaken(rows, key)
  }

  predicate Owned(r: Row, w: WorkerId) { r.status == Running && r.worker == Some(w) }

  /** `WHERE worker_id AND status = 'running' ORDER BY updated_at DESC LIMIT 1`. */
  ghost predicate IsSelected(rows: map<RunId, Row>, w: WorkerId, id: RunId) {
    && id in rows && Owned(rows[id], w)
    && forall o :: o in rows && Owned(rows[o], w) ==> !Earlier(rows[id].updated, rows[o].updated)
  }

  ghost predicate Enabled(cfg: Config, s: State, step: Step) {
    match step
    case Advance(to) => s.now <= to
    case Lookup(c, run, key, digest, found) =>
      c !in s.submitters && run !in s.minted && IsLookup(s.rows, key, found)
    case Insert(c) => c in s.submitters && s.submitters[c].Entering?
    case Reread(c, found) =>
      c in s.submitters && s.submitters[c].Refused? && IsLookup(s.rows, s.submitters[c].key, found)
    case Start(w) => w !in s.born
    case Crash(w) => w in s.workers
    case Claim(w, id) => w in s.workers && s.workers[w].Idle? && Oldest(s.rows, id, Now(cfg, s), cfg.max)
    case Select(w, id) => w in s.workers && s.workers[w].Claiming? && IsSelected(s.rows, w, id)
    case SelectNothing(w) =>
      w in s.workers && s.workers[w].Claiming? && forall o :: o in s.rows ==> !Owned(s.rows[o], w)
    case SelectFails(w) => w in s.workers && s.workers[w].Claiming?
    case Settle(w, result, readOk) => w in s.workers && s.workers[w].Working?
    case Beat(w, id) => w in s.workers
    case Merge(w, effect, ok) => w in s.workers && s.workers[w].Publishing? && (ok ==> effect)
    case Verify(w, readOk) => w in s.workers && s.workers[w].Verifying?
    case Complete(w, ok) =>
      && w in s.workers && s.workers[w].Finishing?
      && (ok ==> forall o :: o in s.rows && o != s.workers[w].run ==> s.rows[o].resultId != Some(s.workers[w].result.id))
    case Fail(w, ok) => w in s.workers && s.workers[w].Failing?
    case Cancel(id) => true
  }

  /** The answer after finding a row under the key. */
  function AnswerFor(rows: map<RunId, Row>, digest: nat, found: RunId): Answer
    requires found in rows
  {
    if rows[found].digest == digest then Existing(found) else Conflict
  }

  /** The insert meets the UNIQUE constraint on the key, or goes in. */
  ghost predicate InsertFits(s: State, c: nat)
    requires c in s.submitters && s.submitters[c].Entering?
  {
    !KeyTaken(s.rows, s.submitters[c].key) && s.submitters[c].run !in s.rows
  }

  /** The queue after each statement. */
  ghost function RowsAfter(cfg: Config, s: State, step: Step): map<RunId, Row>
    requires Enabled(cfg, s, step)
  {
    match step
    case Insert(c) =>
      var e := s.submitters[c];
      if InsertFits(s, c) then s.rows[e.run := NewRow(e.key, e.digest, Now(cfg, s))] else s.rows
    case Claim(w, id) => s.rows[id := ClaimRow(s.rows[id], w, Now(cfg, s), Expiry(cfg, s))]
    case Beat(w, id) =>
      if id in s.rows && HeartbeatFits(s.rows[id], w) then s.rows[id := HeartbeatRow(s.rows[id], Now(cfg, s), Expiry(cfg, s))]
      else s.rows
    case Complete(w, ok) =>
      var pc := s.workers[w];
      if ok && pc.run in s.rows && CompleteFits(s.rows[pc.run], w)
      then s.rows[pc.run := CompleteRow(s.rows[pc.run], pc.result.id, pc.result.stored, Now(cfg, s))] else s.rows
    case Fail(w, ok) =>
      var pc := s.workers[w];
      if ok && pc.run in s.rows then s.rows[pc.run := FailRow(s.rows[pc.run], pc.attempt < cfg.max, Now(cfg, s))] else s.rows
    case Cancel(id) =>
      if id in s.rows && CancelFits(s.rows[id]) then s.rows[id := CancelRow(s.rows[id], Now(cfg, s))] else s.rows
    case _ => s.rows
  }

  /** Whether the merge inserts a new result row. */
  ghost predicate MergeInserts(s: State, step: Step) {
    && step.Merge? && step.effect && step.w in s.workers && s.workers[step.w].Publishing?
    && s.workers[step.w].result.id !in s.results
  }

  ghost function ResultsAfter(s: State, step: Step): map<ResultId, Stored> {
    if MergeInserts(s, step) then s.results[s.workers[step.w].result.id := s.workers[step.w].result.stored] else s.results
  }

  ghost function OriginAfter(s: State, step: Step): map<ResultId, RunId> {
    if MergeInserts(s, step) then s.origin[s.workers[step.w].result.id := s.workers[step.w].run] else s.origin
  }

  /** Where the worker that made the statement stands afterwards. */
  ghost function WorkerAfter(cfg: Config, s: State, step: Step): Worker
    requires Enabled(cfg, s, step)
  {
    match step
    case Claim(w, id) => Claiming
    case Select(w, id) => Working(id, s.rows[id].attempt)
    case Settle(w, result, readOk) =>
      var pc := s.workers[w];
      if readOk && pc.run in s.rows && s.rows[pc.run].cancelRequested then Idle else Publishing(pc.run, pc.attempt, result)
    case Merge(w, effect, ok) =>
      var pc := s.workers[w];
      if ok then Verifying(pc.run, pc.attempt, pc.result) else Failing(pc.run, pc.attempt)
    case Verify(w, readOk) =>
      var pc := s.workers[w];
      if readOk && pc.result.id in s.results && s.results[pc.result.id] == pc.result.stored
      then Finishing(pc.run, pc.attempt, pc.result) else Failing(pc.run, pc.attempt)
    case _ => Idle
  }

  predicate MovesWorker(step: Step) {
    || step.Start? || step.Claim? || step.Select? || step.SelectNothing? || step.SelectFails? || step.Settle? || step.Merge? || step.Verify?
    || step.Complete? || step.Fail?
  }

  ghost function WorkersAfter(cfg: Config, s: State, step: Step): map<WorkerId, Worker>
    requires Enabled(cfg, s, step)
  {
    if MovesWorker(step) then s.workers[step.w := WorkerAfter(cfg, s, step)]
    else if step.Crash? then s.workers - {step.w}
    else s.workers
  }

  ghost function SubmittersAfter(cfg: Config, s: State, step: Step): map<nat, Submitter>
    requires Enabled(cfg, s, step)
  {
    match step
    case Lookup(c, run, key, digest, found) =>
      s.submitters[c := if found.None? then Entering(run, key, digest)
                        else Answered(run, key, digest, AnswerFor(s.rows, digest, found.value))]
    case Insert(c) =>
      var e := s.submitters[c];
      s.submitters[c := if InsertFits(s, c) then Answered(e.run, e.key, e.digest, Created(e.run)) else Refused(e.run, e.key, e.digest)]
    case Reread(c, found) =>
      var e := s.submitters[c];
      s.submitters[c := Answered(e.run, e.key, e.digest,
                                 if found.None? then Conflict else AnswerFor(s.rows, e.digest, found.value))]
    case _ => s.submitters
  }

  ghost function ClaimsAfter(cfg: Config, s: State, step: Step): map<RunId, nat>
    requires Enabled(cfg, s, step)
  {
    match step
    case Insert(c) => if InsertFits(s, c) then s.claims[s.submitters[c].run := 0] else s.claims
    case Claim(w, id) =>
      var n := if id in s.claims then s.claims[id] else 0;
      s.claims[id := n + 1]
    case _ => s.claims
  }

  ghost function Apply(cfg: Config, s: State, step: Step): State
    requires Enabled(cfg, s, step)
  {
    State(RowsAfter(cfg, s, step), ResultsAfter(s, step),
          WorkersAfter(cfg, s, step), if step.Start? then s.born + {step.w} else s.born,
          SubmittersAfter(cfg, s, step), if step.Lookup? then s.minted + {step.run} else s.minted,
          ClaimsAfter(cfg, s, step), OriginAfter(s, step), if step.Advance? then step.to else s.now)
  }

  /** A finite sequence of enabled steps from a state. */
  ghost predicate IsPath(cfg: Config, from: State, states: seq<State>, steps: seq<Step>) {
    && |states| == |steps| + 1 && states[0] == from
    && forall i :: 0 <= i < |steps| ==> Enabled(cfg, states[i], steps[i]) && states[i + 1] == Apply(cfg, states[i], steps[i])
  }

  /** A finite run from the empty service. */
  ghost predicate IsRun(cfg: Config, states: seq<State>, steps: seq<Step>) {
    IsPath(cfg, INIT, states, steps)
  }

  // --------------------------------------------------------- what one step changes

  /** Row by row: unchanged, new, or changed by one of the guarded statements. */
  lemma RowChange(cfg: Config, s: State, step: Step, id: RunId)
    requires Enabled(cfg, s, step) && id in s.rows
    ensures var t := Apply(cfg, s, step);
            && id in t.rows
            && (t.rows[id] == s.rows[id] || match step
                case Claim(w, x) => x == id && Eligible(s.rows[id], Now(cfg, s), cfg.max) && t.rows[id] == ClaimRow(s.rows[id], w, Now(cfg, s), Expiry(cfg, s))
                case Beat(w, x) => x == id && HeartbeatFits(s.rows[id], w) && t.rows[id] == HeartbeatRow(s.rows[id], Now(cfg, s), Expiry(cfg, s))
                case Complete(w, ok) => ok && s.workers[w].run == id && CompleteFits(s.rows[id], w) &&
                  t.rows[id] == CompleteRow(s.rows[id], s.workers[w].result.id, s.workers[w].result.stored, Now(cfg, s))
                case Fail(w, ok) => ok && s.workers[w].run == id && t.rows[id] == FailRow(s.rows[id], s.workers[w].attempt < cfg.max, Now(cfg, s))
                case Cancel(x) => x == id && CancelFits(s.rows[id]) && t.rows[id] == CancelRow(s.rows[id], Now(cfg, s))
                case _ => false)
  {}

  /** A row that was not there comes from an insert, queued and unclaimed. */
  lemma RowBirth(cfg: Config, s: State, step: Step, id: RunId)
    requires Enabled(cfg, s, step) && id !in s.rows && id in Apply(cfg, s, step).rows
    ensures step.Insert? && s.submitters[step.c].run == id && !KeyTaken(s.rows, s.submitters[step.c].key)
    ensures Apply(cfg, s, step).rows ==
            s.rows[id := NewRow(s.submitters[step.c].key, s.submitters[step.c].digest, Now(cfg, s))]
  {}

  // ------------------------------------------------------------ lease invariant

  ghost predicate RowsOk(cfg: Config, s: State) {
    forall id :: id in s.rows ==> RowOk(s.rows[id], cfg.max)
  }

  lemma RowsOkKept(cfg: Config, s: State, step: Step)
    requires Enabled(cfg, s, step) && RowsOk(cfg, s)
    ensures RowsOk(cfg, Apply(cfg, s, step))
  {
    var t := Apply(cfg, s, step);
    forall id | id in t.rows ensures RowOk(t.rows[id], cfg.max) {
      hide Apply, Enabled;
      if id in s.rows { RowChange(cfg, s, step, id); } else { RowBirth(cfg, s, step, id); }
    }
  }

  // --------------------------------------------------------- durable completion

  /** A row's result pointer leads to the stored result it was completed with. */
  ghost predicate BackedBy(r: Row, results: map<ResultId, Stored>) {
    r.resultId.Some? ==> r.completion.Some? && r.resultId.value in results && results[r.resultId.value] == r.completion.value
  }

  ghost predicate Published(results: map<ResultId, Stored>, result: Result) {
    result.id in results && results[result.id] == result.stored
  }

  ghost predicate Durable(s: State) {
    && (forall id :: id in s.rows ==> BackedBy(s.rows[id], s.results))
    && (forall w :: w in s.workers && s.workers[w].Finishing? ==> Published(s.results, s.workers[w].result))
  }

  /** No stored result row ever changes or goes away. */
  ghost predicate ResultsKept(s: State, t: State) {
    forall k :: k in s.results ==> k in t.results && t.results[k] == s.results[k]
  }

  lemma ResultsNeverChange(cfg: Config, s: State, step: Step)
    requires Enabled(cfg, s, step)
    ensures ResultsKept(s, Apply(cfg, s, step))
  {}

  lemma WorkerChange(cfg: Config, s: State, step: Step, w: WorkerId)
    requires Enabled(cfg, s, step) && w in Apply(cfg, s, step).workers && Apply(cfg, s, step).workers[w].Finishing?
    ensures var pc := Apply(cfg, s, step).workers[w];
            (w in s.workers && s.workers[w] == pc) || Published(Apply(cfg, s, step).results, pc.result)
  {
  }

  lemma DurableKept(cfg: Config, s: State, step: Step)
    requires Enabled(cfg, s, step) && Durable(s)
    ensures Durable(Apply(cfg, s, step))
  {
    var t := Apply(cfg, s, step);
    ResultsNeverChange(cfg, s, step);
    hide Apply, Enabled;
    forall id | id in t.rows ensures BackedBy(t.rows[id], t.results) {
      if id in s.rows {
        RowChange(cfg, s, step, id);
        if step.Complete? { FinishingPublished(cfg, s, step); }
      } else {
        RowBirth(cfg, s, step, id);
      }
    }
    forall w | w in t.workers && t.workers[w].Finishing? ensures Published(t.results, t.workers[w].result) {
      WorkerChange(cfg, s, step, w);
    }
  }

  lemma FinishingPublished(cfg: Config, s: State, step: Step)
    requires Enabled(cfg, s, step) && Durable(s) && step.Complete?
    ensures Published(s.results, s.workers[step.w].result)
  {}
}
