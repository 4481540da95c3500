/** The durable queue's rows and the guarded statements that change them.  Times
    are TEXT columns, written and compared as texts. */
module LeaseRows {
  import opened Options
  import Timestamps

  type Text = string

  type RunId = nat
  type WorkerId = nat
  type ResultId = nat

  datatype Status = Queued | Running | Completed | Failed | Canceled

  /** The immutable row a completed run is stored as: the identity columns that
      the read-back compares. */
  datatype Stored = Stored(run: nat, digest: nat, size: nat)

  datatype Row = Row(
    key: nat, digest: nat, status: Status,
    worker: Option<WorkerId>, lease: Option<Text>, attempt: nat, cancelRequested: bool,
    resultId: Option<ResultId>, completion: Option<Stored>,
    created: Text, updated: Text, completedAt: Option<Text>)

  predicate Terminal(s: Status) { s == Completed || s == Failed || s == Canceled }

  function NewRow(key: nat, digest: nat, now: Text): Row {
    Row(key, digest, Queued, None, None, 0, false, None, None, now, now, None)
  }

  /** The comparison of two TEXT columns. */
  predicate Earlier(a: Text, b: Text) { Timestamps.TextLess(a, b) }

  lemma NeverEarlierThanItself(a: Text)
    ensures !Earlier(a, a)
  {
    Timestamps.Irreflexive(a);
  }

  /** Claimable: queued, or running under an expired lease, with attempts left. */
  predicate Eligible(r: Row, now: Text, max: nat) {
    && (r.status == Queued || (r.status == Running && r.lease.Some? && Earlier(r.lease.value, now)))
    && r.attempt < max
  }

  /** The oldest claimable row. */
  ghost predicate Oldest(rows: map<RunId, Row>, id: RunId, now: Text, max: nat) {
    && id in rows && Eligible(rows[id], now, max)
    && forall o :: o in rows && Eligible(rows[o], now, max) ==> !Earlier(rows[o].created, rows[id].created)
  }

  function ClaimRow(r: Row, w: WorkerId, now: Text, expiry: Text): Row {
    r.(status := Running, worker := Some(w), lease := Some(expiry), attempt := r.attempt + 1, updated := now)
  }

  /** `WHERE run_id AND worker_id AND status = 'running'`. */
  predicate HeartbeatFits(r: Row, w: WorkerId) { r.worker == Some(w) && r.status == Running }

  function HeartbeatRow(r: Row, now: Text, expiry: Text): Row {
    r.(lease := Some(expiry), updated := now)
  }

  /** `WHERE run_id AND worker_id`. */
  predicate CompleteFits(r: Row, w: WorkerId) { r.worker == Some(w) }

  function CompleteRow(r: Row, id: ResultId, stored: Stored, now: Text): Row {
    r.(status := Completed, resultId := Some(id), completion := Some(stored),
       worker := None, lease := None, updated := now, completedAt := Some(now))
  }

  /** `WHERE run_id` alone. */
  function FailRow(r: Row, requeue: bool, now: Text): Row {
    r.(status := if requeue then Queued else Failed,
       worker := None, lease := None, updated := now, completedAt := if requeue then None else Some(now))
  }

  /** `WHERE run_id AND status IN ('queued', 'running')`. */
  predicate CancelFits(r: Row) { r.status == Queued || r.status == Running }

  function CancelRow(r: Row, now: Text): Row {
    r.(cancelRequested := true, status := Canceled, worker := None, lease := None, updated := now, completedAt := Some(now))
  }

  // ---------------------------------------------------------------- row invariant

  /** A worker and a lease exactly while running, a completion time exactly when
      terminal, attempts within the bound. */
  predicate RowOk(r: Row, max: nat) {
    && (r.status == Running <==> r.worker.Some?)
    && (r.status == Running <==> r.lease.Some?)
    && (Terminal(r.status) <==> r.completedAt.Some?)
    && r.attempt <= max
  }

  predicate SameIdentity(r: Row, r': Row) {
    r'.key == r.key && r'.digest == r.digest && r'.created == r.created
  }

  // ------------------------------------------------------------------- remaining

  /** Attempts left over all rows: the measure of the drain loop. */
  ghost function Remaining(rows: map<RunId, Row>, max: nat): nat {
    if rows == map[] then 0
    else
      var id :| id in rows;
      Left(rows[id], max) + Remaining(rows - {id}, max)
  }

  function Left(r: Row, max: nat): nat {
    if r.attempt < max then max - r.attempt else 0
  }

  /** The sum does not depend on the order of summation. */
  lemma {:induction false} RemainingSplit(rows: map<RunId, Row>, id: RunId, max: nat)
    requires id in rows
    ensures Remaining(rows, max) == Left(rows[id], max) + Remaining(rows - {id}, max)
    decreases |rows|
  {
    var first :| first in rows && Remaining(rows, max) == Left(rows[first], max) + Remaining(rows - {first}, max);
    if first != id {
      RemainingSplit(rows - {first}, id, max);
      RemainingSplit(rows - {id}, first, max);
      assert rows - {first} - {id} == rows - {id} - {first};
    }
  }

  /** Replacing one row changes the sum by that row's difference. */
  lemma RemainingUpdate(rows: map<RunId, Row>, id: RunId, r: Row, max: nat)
    requires id in rows
    ensures Remaining(rows[id := r], max) - Left(r, max) == Remaining(rows, max) - Left(rows[id], max)
  {
    RemainingSplit(rows, id, max);
    RemainingSplit(rows[id := r], id, max);
    assert rows[id := r] - {id} == rows - {id};
  }
}
