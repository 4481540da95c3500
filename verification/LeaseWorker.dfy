/** The queue, the result table and the worker loop as they run: each method is
    one guarded statement or a sequence of them. */
module LeaseWorker {
  import opened Options
  import opened LeaseRows
  import opened LeaseProtocol
  import opened LeaseTheorems
  import Timestamps

  class LifecycleStore {
    var rows: map<RunId, Row>

    constructor ()
      ensures rows == map[]
    {
      rows := map[];
    }

    ghost predicate Valid(max: nat)
      reads this
    {
      && (forall id :: id in rows ==> RowOk(rows[id], max))
      && (forall a, b :: a in rows && b in rows && rows[a].key == rows[b].key ==> a == b)
    }

    method FindByKey(key: nat) returns (found: Option<RunId>)
      ensures IsLookup(rows, key, found)
    {
      if id :| id in rows && rows[id].key == key {
        return Some(id);
      }
      return None;
    }

    /** `CreateLifecycleRun`: one row per key, whoever asks again.  `rival` is a
        submission that commits between the lookup and the insert. */
    method CreateLifecycleRun(run: RunId, key: nat, digest: nat, now: Text, ghost max: nat, rival: Option<(RunId, Row)>) returns (answer: Answer)
      requires Valid(max) && run !in rows
      requires rival.Some? ==> rival.value.0 !in rows && rival.value.0 != run && !KeyTaken(rows, rival.value.1.key) && RowOk(rival.value.1, max)
      modifies this
      ensures Valid(max)
      ensures answer.Created? ==> answer.run == run && !KeyTaken(old(rows), key)
      ensures rows == Joined(old(rows), if KeyTaken(old(rows), key) then None else rival, if answer.Created? then Some((run, NewRow(key, digest, now))) else None)
      ensures answer.Existing? ==> HeldBy(rows, answer.run, key, digest)
      ensures answer.Conflict? ==> OtherDigest(rows, key, digest)
    {
      var found := FindByKey(key);
      if found.Some? {
        if rows[found.value].digest != digest { return Conflict; }
        return Existing(found.value);
      }
      if rival.Some? { rows := rows[rival.value.0 := rival.value.1]; }
      found := FindByKey(key);
      if found.None? {
        rows := rows[run := NewRow(key, digest, now)];
        return Created(run);
      }
      if rows[found.value].digest == digest { return Existing(found.value); }
      return Conflict;
    }

    /** `ClaimNextQueuedRun`: the oldest claimable row goes to the worker; what is
        returned is the worker's most recently touched running row.  When the
        read-back fails the row is claimed all the same. */
    method ClaimNextQueuedRun(w: WorkerId, now: Text, expiry: Text, max: nat, claimOk: bool, readOk: bool)
      returns (selected: Option<RunId>, ghost claimed: Option<RunId>)
      requires Valid(max)
      modifies this
      ensures Valid(max)
      ensures selected.Some? <==> claimed.Some? && readOk
      ensures claimed.None? ==> rows == old(rows) && (claimOk ==> forall o :: o in rows ==> !Eligible(rows[o], now, max))
      ensures claimed.Some? ==>
                && Oldest(old(rows), claimed.value, now, max)
                && rows == old(rows)[claimed.value := ClaimRow(old(rows)[claimed.value], w, now, expiry)]
      ensures selected.Some? ==>
                && IsSelected(rows, w, selected.value)
                && ((forall o :: o in old(rows) ==> Earlier(old(rows)[o].updated, now)) ==> selected == claimed)
    {
      if !claimOk { return None, None; }
      var eligible := set o | o in rows && Eligible(rows[o], now, max);
      if eligible == {} {
        assert forall o :: o in rows && Eligible(rows[o], now, max) ==> o in eligible;
        return None, None;
      }
      var id := OldestOf(eligible);
      rows := rows[id := ClaimRow(rows[id], w, now, expiry)];
      claimed := Some(id);
      if !readOk { return None, claimed; }
      var mine := set o | o in rows && Owned(rows[o], w);
      assert id in mine;
      var latest := LatestOf(mine);
      selected := Some(latest);
      forall o | o in rows && Owned(rows[o], w) ensures !Earlier(rows[latest].updated, rows[o].updated) {
        assert o in mine;
      }
    }

    /** `ORDER BY created_at ASC LIMIT 1`. */
    method OldestOf(ids: set<RunId>) returns (id: RunId)
      requires ids != {} && forall o :: o in ids ==> o in rows
      ensures id in ids && forall o :: o in ids ==> !Earlier(rows[o].created, rows[id].created)
    {
      id :| id in ids;
      NeverEarlierThanItself(rows[id].created);
      var left := ids - {id};
      while left != {}
        invariant left <= ids && id in ids
        invariant forall o :: o in ids - left ==> !Earlier(rows[o].created, rows[id].created)
        decreases left
      {
        hide Earlier;
        var o :| o in left;
        NeverEarlierThanItself(rows[o].created);
        if Earlier(rows[o].created, rows[id].created) {
          EarlierIsTransitive();
          id := o;
        }
        left := left - {o};
      }
    }

    /** `ORDER BY updated_at DESC LIMIT 1`. */
    method LatestOf(ids: set<RunId>) returns (id: RunId)
      requires ids != {} && forall o :: o in ids ==> o in rows
      ensures id in ids && forall o :: o in ids ==> !Earlier(rows[id].updated, rows[o].updated)
    {
      id :| id in ids;
      NeverEarlierThanItself(rows[id].updated);
      var left := ids - {id};
      while left != {}
        invariant left <= ids && id in ids
        invariant forall o :: o in ids - left ==> !Earlier(rows[id].updated, rows[o].updated)
        decreases left
      {
        hide Earlier;
        var o :| o in left;
        NeverEarlierThanItself(rows[o].updated);
        if Earlier(rows[id].updated, rows[o].updated) {
          EarlierIsTransitive();
          id := o;
        }
        left := left - {o};
      }
    }

    /** `Heartbeat`: fenced by the worker and the status. */
    method Heartbeat(id: RunId, w: WorkerId, now: Text, expiry: Text, ghost max: nat)
      requires Valid(max)
      modifies this
      ensures Valid(max)
      ensures rows == if id in old(rows) && HeartbeatFits(old(rows)[id], w)
                      then old(rows)[id := HeartbeatRow(old(rows)[id], now, expiry)] else old(rows)
    {
      if id in rows && HeartbeatFits(rows[id], w) {
        rows := rows[id := HeartbeatRow(rows[id], now, expiry)];
      }
    }

    /** `CompleteLifecycleRun`: fenced by the worker, and refused by the UNIQUE
        column when another row has the result; without effect where the statement
        does not reach the store. */
    method CompleteLifecycleRun(id: RunId, w: WorkerId, result: Result, now: Text, ghost max: nat, reached: bool) returns (ok: bool)
      requires Valid(max)
      modifies this
      ensures Valid(max)
      ensures rows == if ok && id in old(rows) && CompleteFits(old(rows)[id], w)
                      then old(rows)[id := CompleteRow(old(rows)[id], result.id, result.stored, now)] else old(rows)
      ensures !ok <==> !reached || (id in old(rows) && CompleteFits(old(rows)[id], w) && exists o :: o in old(rows) && o != id && old(rows)[o].resultId == Some(result.id))
    {
      if !reached { return false; }
      if id !in rows || !CompleteFits(rows[id], w) { return true; }
      if o :| o in rows && o != id && rows[o].resultId == Some(result.id) { return false; }
      rows := rows[id := CompleteRow(rows[id], result.id, result.stored, now)];
      return true;
    }

    /** `FailLifecycleRun`: fenced by nothing but the run id. */
    method FailLifecycleRun(id: RunId, requeue: bool, now: Text, ghost max: nat, reached: bool)
      requires Valid(max)
      modifies this
      ensures Valid(max)
      ensures rows == if reached && id in old(rows) then old(rows)[id := FailRow(old(rows)[id], requeue, now)] else old(rows)
    {
      if reached && id in rows {
        rows := rows[id := FailRow(rows[id], requeue, now)];
      }
    }

    /** `RequestCancellation`: a terminal run keeps its state. */
    method RequestCancellation(id: RunId, now: Text, ghost max: nat)
      requires Valid(max)
      modifies this
      ensures Valid(max)
      ensures rows == if id in old(rows) && CancelFits(old(rows)[id]) then old(rows)[id := CancelRow(old(rows)[id], now)] else old(rows)
    {
      if id !in rows || Terminal(rows[id].status) { return; }
      rows := rows[id := CancelRow(rows[id], now)];
    }
  }

  /** Rows with a first and then a second one added. */
  function Joined(rows: map<RunId, Row>, first: Option<(RunId, Row)>, second: Option<(RunId, Row)>): map<RunId, Row> {
    var more := if first.Some? then rows[first.value.0 := first.value.1] else rows;
    if second.Some? then more[second.value.0 := second.value.1] else more
  }

  lemma EarlierIsTransitive()
    ensures forall a, b, c :: Earlier(a, b) && Earlier(b, c) ==> Earlier(a, c)
  {
    forall a, b, c | Earlier(a, b) && Earlier(b, c) ensures Earlier(a, c) { Timestamps.TextTransitive(a, b, c); }
  }

  /** What the outside world does to one claim and one publication. */
  datatype Weather = Weather(
    claimOk: bool, readBackOk: bool, lookOk: bool, mergeEffect: bool, mergeOk: bool, readOk: bool, completeReached: bool, failReached: bool)

  /** What the clock, the requests and the translation bring meanwhile: the time,
      the expiry of a lease taken now, heartbeats, cancellations before and after the
      worker looks for one, and the result. */
  datatype Meanwhile = Meanwhile(now: Text, expiry: Text, beats: nat, canceled: seq<RunId>, late: seq<RunId>, result: Result)

  class ResultTable {
    var results: map<ResultId, Stored>

    constructor ()
      ensures results == map[]
    {
      results := map[];
    }

    /** `SaveCompletedRun`: insert if absent, then read back and compare.  It
        reports success exactly when both statements answer and the row there has
        this very identity, and it never changes a row that is there. */
    method SaveCompletedRun(result: Result, weather: Weather) returns (ok: bool)
      modifies this
      ensures results == if weather.mergeEffect && result.id !in old(results) then old(results)[result.id := result.stored] else old(results)
      ensures ok <==> weather.mergeOk && weather.readOk && Published(results, result)
    {
      if weather.mergeEffect && result.id !in results {
        results := results[result.id := result.stored];
      }
      if !weather.mergeOk { return false; }
      if !weather.readOk || result.id !in results { return false; }
      return results[result.id] == result.stored;
    }
  }

  lemma LeftAfterClaim(r: Row, w: WorkerId, now: Text, expiry: Text, max: nat)
    requires Eligible(r, now, max)
    ensures Left(ClaimRow(r, w, now, expiry), max) < Left(r, max)
  {}

  /** Every result pointer in the queue leads to its stored result. */
  ghost predicate Backed(rows: map<RunId, Row>, results: map<ResultId, Stored>) {
    forall id :: id in rows ==> BackedBy(rows[id], results)
  }

  ghost predicate Kept(before: map<ResultId, Stored>, after: map<ResultId, Stored>) {
    forall k :: k in before ==> k in after && after[k] == before[k]
  }

  lemma ClaimShrinks(before: map<RunId, Row>, after: map<RunId, Row>, results: map<ResultId, Stored>,
                     id: RunId, w: WorkerId, now: Text, expiry: Text, max: nat)
    requires id in before && Eligible(before[id], now, max) && Backed(before, results)
    requires after == before[id := ClaimRow(before[id], w, now, expiry)]
    ensures Remaining(after, max) < Remaining(before, max) && Backed(after, results)
  {
    LeftAfterClaim(before[id], w, now, expiry, max);
    hide Remaining, Left;
    RemainingUpdate(before, id, after[id], max);
  }

  lemma SameAttempts(before: map<RunId, Row>, after: map<RunId, Row>, id: RunId, max: nat)
    requires id in before && id in after && after == before[id := after[id]] && after[id].attempt == before[id].attempt
    ensures Remaining(after, max) == Remaining(before, max)
  {
    RemainingUpdate(before, id, after[id], max);
  }

  lemma BackedUpdate(before: map<RunId, Row>, after: map<RunId, Row>, id: RunId, results: map<ResultId, Stored>, results': map<ResultId, Stored>)
    requires id in before && id in after && after == before[id := after[id]]
    requires Backed(before, results) && Kept(results, results') && BackedBy(after[id], results')
    ensures Backed(after, results')
  {}

  /** The row is as before but for its lease and update time. */
  predicate SameButLease(b: Row, a: Row) { a == b.(lease := a.lease, updated := a.updated) }

  /** The row was canceled: nothing else of it that outlives a lease has changed. */
  predicate WasCanceled(b: Row, a: Row) {
    a == b.(status := Canceled, cancelRequested := true, worker := None, lease := None, updated := a.updated, completedAt := a.completedAt)
  }

  /** Requests have been served: those in `ids` that could be were canceled; of the
      others only the worker's run may have a new lease. */
  ghost predicate Served(before: map<RunId, Row>, after: map<RunId, Row>, w: WorkerId, run: RunId, ids: seq<RunId>, now: Text) {
    && after.Keys == before.Keys
    && forall o :: o in before ==> ServedRow(before[o], after[o], o in ids, o == run && HeartbeatFits(before[o], w)) && TouchedBy(before[o], after[o], now)
  }

  predicate ServedRow(b: Row, a: Row, requested: bool, beaten: bool) {
    if requested && CancelFits(b) then WasCanceled(b, a) else if beaten then SameButLease(b, a) else a == b
  }

  /** Every row was last touched before, or now. */
  predicate TouchedBy(b: Row, a: Row, now: Text) { a.updated == b.updated || a.updated == now }

  /** The heartbeats and cancellation requests that arrive while a translation
      runs. */
  method MeanwhileRequests(queue: LifecycleStore, w: WorkerId, id: RunId, m: Meanwhile, ghost max: nat, ghost results: map<ResultId, Stored>)
    requires queue.Valid(max) && Backed(queue.rows, results)
    modifies queue
    ensures queue.Valid(max) && Backed(queue.rows, results)
    ensures Remaining(queue.rows, max) == Remaining(old(queue.rows), max)
    ensures Served(old(queue.rows), queue.rows, w, id, m.canceled, m.now)
  {
    hide Remaining, Backed;
    for i := 0 to m.beats
      invariant queue.Valid(max) && Backed(queue.rows, results)
      invariant Remaining(queue.rows, max) == Remaining(old(queue.rows), max)
      invariant Served(old(queue.rows), queue.rows, w, id, [], m.now)
    {
      ghost var before := queue.rows;
      Beat(queue, w, id, m, max, results);
      BeatServes(old(queue.rows), before, queue.rows, w, id, m.now);
    }
    ghost var before := queue.rows;
    Cancellations(queue, m.canceled, m.now, max, results);
    ServedThen(old(queue.rows), before, queue.rows, w, id, m.canceled, m.now);
  }

  lemma BeatServes(first: map<RunId, Row>, before: map<RunId, Row>, after: map<RunId, Row>, w: WorkerId, id: RunId, now: Text)
    requires Served(first, before, w, id, [], now) && after.Keys == before.Keys
    requires forall o :: o in before ==> if o == id && HeartbeatFits(before[o], w) then SameButLease(before[o], after[o]) && TouchedBy(before[o], after[o], now) else after[o] == before[o]
    ensures Served(first, after, w, id, [], now)
  {}

  /** First heartbeats, then cancellations. */
  lemma ServedThen(first: map<RunId, Row>, before: map<RunId, Row>, after: map<RunId, Row>, w: WorkerId, id: RunId, ids: seq<RunId>, now: Text)
    requires Served(first, before, w, id, [], now)
    requires after.Keys == before.Keys
    requires forall o :: o in before ==> if o in ids && CancelFits(before[o]) then WasCanceled(before[o], after[o]) && TouchedBy(before[o], after[o], now) else after[o] == before[o]
    ensures Served(first, after, w, id, ids, now)
  {}

  method Cancellations(queue: LifecycleStore, ids: seq<RunId>, now: Text, ghost max: nat, ghost results: map<ResultId, Stored>)
    requires queue.Valid(max) && Backed(queue.rows, results)
    modifies queue
    ensures queue.Valid(max) && Backed(queue.rows, results)
    ensures Remaining(queue.rows, max) == Remaining(old(queue.rows), max)
    ensures queue.rows.Keys == old(queue.rows).Keys
    ensures forall o :: o in old(queue.rows) ==>
              if o in ids && CancelFits(old(queue.rows)[o]) then WasCanceled(old(queue.rows)[o], queue.rows[o]) && TouchedBy(old(queue.rows)[o], queue.rows[o], now) else queue.rows[o] == old(queue.rows)[o]
  {
    hide Remaining, Backed;
    for i := 0 to |ids|
      invariant queue.Valid(max) && Backed(queue.rows, results)
      invariant Remaining(queue.rows, max) == Remaining(old(queue.rows), max)
      invariant queue.rows.Keys == old(queue.rows).Keys
      invariant forall o :: o in old(queue.rows) ==>
                  if o in ids[..i] && CancelFits(old(queue.rows)[o]) then WasCanceled(old(queue.rows)[o], queue.rows[o]) && TouchedBy(old(queue.rows)[o], queue.rows[o], now) else queue.rows[o] == old(queue.rows)[o]
    {
      assert ids[..i + 1] == ids[..i] + [ids[i]];
      Cancellation(queue, ids[i], now, max, results);
    }
    assert ids[..|ids|] == ids;
  }

  method Beat(queue: LifecycleStore, w: WorkerId, id: RunId, m: Meanwhile, ghost max: nat, ghost results: map<ResultId, Stored>)
    requires queue.Valid(max) && Backed(queue.rows, results)
    modifies queue
    ensures queue.Valid(max) && Backed(queue.rows, results)
    ensures Remaining(queue.rows, max) == Remaining(old(queue.rows), max)
    ensures queue.rows.Keys == old(queue.rows).Keys
    ensures forall o :: o in old(queue.rows) ==>
              if o == id && HeartbeatFits(old(queue.rows)[o], w) then SameButLease(old(queue.rows)[o], queue.rows[o]) && TouchedBy(old(queue.rows)[o], queue.rows[o], m.now) else queue.rows[o] == old(queue.rows)[o]
  {
    hide Remaining;
    queue.Heartbeat(id, w, m.now, m.expiry, max);
    if id in old(queue.rows) {
      SameAttempts(old(queue.rows), queue.rows, id, max);
      BackedUpdate(old(queue.rows), queue.rows, id, results, results);
    }
  }

  method Cancellation(queue: LifecycleStore, id: RunId, now: Text, ghost max: nat, ghost results: map<ResultId, Stored>)
    requires queue.Valid(max) && Backed(queue.rows, results)
    modifies queue
    ensures queue.Valid(max) && Backed(queue.rows, results)
    ensures Remaining(queue.rows, max) == Remaining(old(queue.rows), max)
    ensures queue.rows.Keys == old(queue.rows).Keys
    ensures forall o :: o in old(queue.rows) ==>
              if o == id && CancelFits(old(queue.rows)[o]) then WasCanceled(old(queue.rows)[o], queue.rows[o]) && TouchedBy(old(queue.rows)[o], queue.rows[o], now) else queue.rows[o] == old(queue.rows)[o]
  {
    hide Remaining;
    queue.RequestCancellation(id, now, max);
    if id in old(queue.rows) {
      SameAttempts(old(queue.rows), queue.rows, id, max);
      BackedUpdate(old(queue.rows), queue.rows, id, results, results);
    }
  }

  /** No other row points to the result. */
  ghost predicate PointerFree(rows: map<RunId, Row>, id: RunId, result: ResultId) {
    forall o :: o in rows && o != id ==> rows[o].resultId != Some(result)
  }

  /** The row after the completion or the failure statement. */
  ghost function Settled(rows: map<RunId, Row>, w: WorkerId, id: RunId, requeue: bool, now: Text, result: Result, weather: Weather, saved: bool): map<RunId, Row> {
    if id !in rows then rows
    else if !saved then if weather.failReached then rows[id := FailRow(rows[id], requeue, now)] else rows
    else if weather.completeReached && CompleteFits(rows[id], w) && PointerFree(rows, id, result.id)
    then rows[id := CompleteRow(rows[id], result.id, result.stored, now)]
    else rows
  }

  /** Publish, then complete the row or put it back. */
  method Finish(queue: LifecycleStore, table: ResultTable, w: WorkerId, id: RunId, attempt: nat, now: Text, max: nat,
                result: Result, weather: Weather) returns (saved: bool)
    requires queue.Valid(max) && Backed(queue.rows, table.results)
    modifies queue, table
    ensures table.results == if weather.mergeEffect && result.id !in old(table.results) then old(table.results)[result.id := result.stored] else old(table.results)
    ensures saved <==> weather.mergeOk && weather.readOk && Published(table.results, result)
    ensures queue.rows == Settled(old(queue.rows), w, id, attempt < max, now, result, weather, saved)
    ensures queue.Valid(max) && Backed(queue.rows, table.results)
    ensures Kept(old(table.results), table.results)
    ensures Remaining(queue.rows, max) == Remaining(old(queue.rows), max)
    ensures id in queue.rows && id in old(queue.rows) && queue.rows[id].status == Completed && old(queue.rows)[id].status != Completed
            ==> Published(table.results, result) && queue.rows[id].resultId == Some(result.id)
  {
    hide Remaining;
    saved := table.SaveCompletedRun(result, weather);
    if !saved {
      queue.FailLifecycleRun(id, attempt < max, now, max, weather.failReached);
    } else {
      var _ := queue.CompleteLifecycleRun(id, w, result, now, max, weather.completeReached);
    }
    if id in old(queue.rows) {
      SameAttempts(old(queue.rows), queue.rows, id, max);
      BackedUpdate(old(queue.rows), queue.rows, id, old(table.results), table.results);
    }
  }

  /** The worker looked, and its run was canceled: now, or before it was requeued. */
  predicate SawCancel(run: RunId, b: Row, m: Meanwhile, weather: Weather) {
    weather.lookOk && (b.cancelRequested || run in m.canceled)
  }

  /** The requests served during one pass. */
  function Requests(seen: bool, m: Meanwhile): seq<RunId> { if seen then m.canceled else m.canceled + m.late }

  /** What becomes of the worker's run, `b` being its row as it was claimed: left alone
      when a cancellation was seen; completed with its published result when that
      was saved, the statement got through and nobody canceled; requeued, or failed
      on its last attempt, when it was not saved; and otherwise still running, or
      canceled. */
  predicate RunSettled(b: Row, a: Row, seen: bool, saved: bool, requested: bool, free: bool, result: Result, weather: Weather, max: nat) {
    && a.attempt == b.attempt && SameIdentity(b, a)
    && if !seen && saved && weather.completeReached && !requested && free then
         a.status == Completed && a.resultId == Some(result.id) && a.completion == Some(result.stored)
       else
         && a.resultId == b.resultId && a.completion == b.completion
         && a.status == if !seen && !saved && weather.failReached then (if b.attempt < max then Queued else Failed)
                        else if requested then Canceled else Running
  }

  /** What becomes of any other row: it changes only if it is the one claimed, or is
      canceled. */
  predicate OtherServed(b: Row, a: Row, claimed: bool, requested: bool, w: WorkerId, m: Meanwhile) {
    ServedRow(if claimed then ClaimRow(b, w, m.now, m.expiry) else b, a, requested, false)
  }

  /** The row of the run as it was when the worker began on it. */
  function AsClaimed(before: map<RunId, Row>, claimed: Option<RunId>, run: RunId, w: WorkerId, m: Meanwhile): Row
    requires run in before
  {
    if claimed == Some(run) then ClaimRow(before[run], w, m.now, m.expiry) else before[run]
  }

  /** One pass, on the queue and the result table around it. */
  ghost predicate Passed(before: map<RunId, Row>, after: map<RunId, Row>, results: map<ResultId, Stored>, results': map<ResultId, Stored>,
                         run: RunId, claimed: Option<RunId>, w: WorkerId, max: nat, m: Meanwhile, weather: Weather)
    requires run in before && run in after && after.Keys == before.Keys
  {
    var b := AsClaimed(before, claimed, run, w, m);
    var seen := SawCancel(run, b, m, weather);
    var saved := weather.mergeOk && weather.readOk && Published(results', m.result);
    && results' == (if !seen && weather.mergeEffect && m.result.id !in results then results[m.result.id := m.result.stored] else results)
    && RunSettled(b, after[run], seen, saved, run in Requests(seen, m), PointerFree(before, run, m.result.id), m.result, weather, max)
    && (forall o :: o in before && o != run ==> OtherServed(before[o], after[o], claimed == Some(o), o in Requests(seen, m), w, m))
    && forall o :: o in before ==> TouchedBy(before[o], after[o], m.now)
  }

  /** Between the claim and the end of the pass. */
  lemma PassEnds(before: map<RunId, Row>, taken: map<RunId, Row>, met: map<RunId, Row>, late: map<RunId, Row>, after: map<RunId, Row>,
                 results: map<ResultId, Stored>, results': map<ResultId, Stored>, run: RunId, claimed: Option<RunId>,
                 w: WorkerId, max: nat, m: Meanwhile, weather: Weather)
    requires run in before && claimed.Some? && claimed.value in before && taken == before[claimed.value := ClaimRow(before[claimed.value], w, m.now, m.expiry)]
    requires Owned(taken[run], w) && Served(taken, met, w, run, m.canceled, m.now)
    requires late.Keys == met.Keys
    requires forall o :: o in met ==> if o in m.late && CancelFits(met[o]) then WasCanceled(met[o], late[o]) && TouchedBy(met[o], late[o], m.now) else late[o] == met[o]
    requires !SawCancel(run, AsClaimed(before, claimed, run, w, m), m, weather)
    requires results' == if weather.mergeEffect && m.result.id !in results then results[m.result.id := m.result.stored] else results
    requires after == Settled(late, w, run, taken[run].attempt < max, m.now, m.result, weather, weather.mergeOk && weather.readOk && Published(results', m.result))
    ensures after.Keys == before.Keys && Passed(before, after, results, results', run, claimed, w, max, m, weather)
  {
    hide *;
    var saved := weather.mergeOk && weather.readOk && Published(results', m.result);
    TwoBatches(taken, met, late, w, run, m);
    SamePointers(before, taken, late, claimed.value, run, w, m);
    RunEnds(taken[run], late, after, run, run in m.canceled + m.late, w, max, m, weather, saved);
    OthersStay(late, after, w, run, taken[run].attempt < max, m, weather, saved);
    AllTouched(taken, late, after, run, m.now);
    Assembled(before, taken, after, results, results', run, claimed, w, max, m, weather);
  }

  lemma AllTouched(taken: map<RunId, Row>, late: map<RunId, Row>, after: map<RunId, Row>, run: RunId, now: Text)
    requires run in taken && late.Keys == taken.Keys && after.Keys == taken.Keys
    requires forall o :: o in taken ==> TouchedBy(taken[o], late[o], now)
    requires (after[run].updated == late[run].updated || after[run].updated == now) && forall o :: o in late && o != run ==> after[o] == late[o]
    ensures forall o :: o in taken ==> TouchedBy(taken[o], after[o], now)
  {}

  lemma Assembled(before: map<RunId, Row>, taken: map<RunId, Row>, after: map<RunId, Row>, results: map<ResultId, Stored>, results': map<ResultId, Stored>,
                  run: RunId, claimed: Option<RunId>, w: WorkerId, max: nat, m: Meanwhile, weather: Weather)
    requires run in before && claimed.Some? && claimed.value in before && taken == before[claimed.value := ClaimRow(before[claimed.value], w, m.now, m.expiry)]
    requires !SawCancel(run, AsClaimed(before, claimed, run, w, m), m, weather) && after.Keys == before.Keys
    requires results' == if weather.mergeEffect && m.result.id !in results then results[m.result.id := m.result.stored] else results
    requires RunSettled(taken[run], after[run], false, weather.mergeOk && weather.readOk && Published(results', m.result), run in m.canceled + m.late,
                        PointerFree(before, run, m.result.id), m.result, weather, max)
    requires forall o :: o in before && o != run ==> ServedRow(taken[o], after[o], o in m.canceled + m.late, false)
    requires forall o :: o in before ==> TouchedBy(taken[o], after[o], m.now)
    ensures Passed(before, after, results, results', run, claimed, w, max, m, weather)
  {
    hide RunSettled, ServedRow, Published, PointerFree;
    assert taken[run] == AsClaimed(before, claimed, run, w, m);
  }

  lemma TwoBatches(taken: map<RunId, Row>, met: map<RunId, Row>, late: map<RunId, Row>, w: WorkerId, run: RunId, m: Meanwhile)
    requires run in taken && Owned(taken[run], w) && Served(taken, met, w, run, m.canceled, m.now) && late.Keys == met.Keys
    requires forall o :: o in met ==> if o in m.late && CancelFits(met[o]) then WasCanceled(met[o], late[o]) && TouchedBy(met[o], late[o], m.now) else late[o] == met[o]
    ensures late.Keys == taken.Keys && forall o :: o in taken ==> ServedRow(taken[o], late[o], o in m.canceled + m.late, o == run) && TouchedBy(taken[o], late[o], m.now)
  {
    forall o | o in taken ensures ServedRow(taken[o], late[o], o in m.canceled + m.late, o == run) && TouchedBy(taken[o], late[o], m.now) {
      assert o in m.canceled + m.late <==> o in m.canceled || o in m.late;
    }
  }

  /** Neither a claim nor a request touches a result pointer. */
  lemma SamePointers(before: map<RunId, Row>, taken: map<RunId, Row>, late: map<RunId, Row>, claimed: RunId, run: RunId, w: WorkerId, m: Meanwhile)
    requires claimed in before && taken == before[claimed := ClaimRow(before[claimed], w, m.now, m.expiry)]
    requires late.Keys == taken.Keys && forall o :: o in taken ==> ServedRow(taken[o], late[o], o in m.canceled + m.late, o == run)
    ensures PointerFree(late, run, m.result.id) <==> PointerFree(before, run, m.result.id)
  {
    forall o | o in before ensures o in late && late[o].resultId == before[o].resultId {}
    hide ServedRow, ClaimRow;
  }

  lemma OthersStay(late: map<RunId, Row>, after: map<RunId, Row>, w: WorkerId, run: RunId, requeue: bool, m: Meanwhile, weather: Weather, saved: bool)
    requires run in late && after == Settled(late, w, run, requeue, m.now, m.result, weather, saved)
    ensures after.Keys == late.Keys && forall o :: o in late && o != run ==> after[o] == late[o]
  {
    hide PointerFree;
  }

  lemma RunEnds(b: Row, late: map<RunId, Row>, after: map<RunId, Row>, run: RunId, requested: bool, w: WorkerId, max: nat, m: Meanwhile, weather: Weather, saved: bool)
    requires run in late && Owned(b, w) && ServedRow(b, late[run], requested, true)
    requires after == Settled(late, w, run, b.attempt < max, m.now, m.result, weather, saved)
    ensures run in after && (after[run].updated == late[run].updated || after[run].updated == m.now) && RunSettled(b, after[run], false, saved, requested, PointerFree(late, run, m.result.id), m.result, weather, max)
  {
    hide PointerFree;
  }

  /** And where a cancellation was seen. */
  lemma PassStops(before: map<RunId, Row>, taken: map<RunId, Row>, met: map<RunId, Row>, results: map<ResultId, Stored>, run: RunId,
                  claimed: Option<RunId>, w: WorkerId, max: nat, m: Meanwhile, weather: Weather)
    requires run in before && claimed.Some? && claimed.value in before && taken == before[claimed.value := ClaimRow(before[claimed.value], w, m.now, m.expiry)]
    requires Owned(taken[run], w) && Served(taken, met, w, run, m.canceled, m.now)
    requires SawCancel(run, AsClaimed(before, claimed, run, w, m), m, weather)
    ensures met.Keys == before.Keys && Passed(before, met, results, results, run, claimed, w, max, m, weather)
  {
    assert taken[run] == AsClaimed(before, claimed, run, w, m);
    RunStops(taken[run], met[run], run in m.canceled, PointerFree(before, run, m.result.id), m, weather, max);
    hide PointerFree, Published, ServedRow, RunSettled, Owned;
    forall o | o in before ensures o == run || ServedRow(taken[o], met[o], o in m.canceled, false) {}
  }

  lemma RunStops(b: Row, a: Row, requested: bool, free: bool, m: Meanwhile, weather: Weather, max: nat)
    requires b.status == Running && ServedRow(b, a, requested, true)
    ensures forall saved :: RunSettled(b, a, true, saved, requested, free, m.result, weather, max)
  {}

  /** `processOne`: claim, translate, look for a cancellation, publish, finish.
      It reports no work when nothing was claimable, and also when the claim or
      its read-back failed.  Whenever work is found, the attempts left over all
      rows shrink; they never grow. */
  method ProcessOne(queue: LifecycleStore, table: ResultTable, w: WorkerId, max: nat, m: Meanwhile, weather: Weather)
    returns (found: bool, ghost run: RunId, ghost claimed: Option<RunId>)
    requires queue.Valid(max) && Backed(queue.rows, table.results)
    modifies queue, table
    ensures queue.Valid(max) && Backed(queue.rows, table.results)
    ensures Kept(old(table.results), table.results)
    ensures claimed.Some? ==> Oldest(old(queue.rows), claimed.value, m.now, max)
    ensures !found ==> table.results == old(table.results)
    ensures !found ==> queue.rows == if claimed.Some? then old(queue.rows)[claimed.value := ClaimRow(old(queue.rows)[claimed.value], w, m.now, m.expiry)]
                                     else old(queue.rows)
    ensures !found && weather.claimOk && weather.readBackOk ==>
              queue.rows == old(queue.rows) && forall o :: o in queue.rows ==> !Eligible(queue.rows[o], m.now, max)
    ensures found ==> claimed.Some? && run in old(queue.rows) && queue.rows.Keys == old(queue.rows).Keys
    ensures found ==> claimed == Some(run) || Owned(old(queue.rows)[run], w)
    ensures found && (forall o :: o in old(queue.rows) ==> Earlier(old(queue.rows)[o].updated, m.now)) ==> claimed == Some(run)
    ensures found ==> Passed(old(queue.rows), queue.rows, old(table.results), table.results, run, claimed, w, max, m, weather)
    ensures Remaining(queue.rows, max) <= Remaining(old(queue.rows), max)
    ensures found ==> Remaining(queue.rows, max) < Remaining(old(queue.rows), max)
  {
    hide Remaining, Backed, ClaimRow, Passed, Served, Settled, AsClaimed, Earlier;
    var selected;
    ghost var first, results := queue.rows, table.results;
    selected, claimed := queue.ClaimNextQueuedRun(w, m.now, m.expiry, max, weather.claimOk, weather.readBackOk);
    if claimed.Some? {
      ClaimShrinks(first, queue.rows, table.results, claimed.value, w, m.now, m.expiry, max);
    }
    run := 0;
    if selected.None? { return false, run, claimed; }
    var id := selected.value;
    run := id;
    var attempt := queue.rows[id].attempt;
    ghost var taken := queue.rows;
    SelectedIs(first, taken, id, claimed.value, w, m);
    MeanwhileRequests(queue, w, id, m, max, table.results);
    ghost var met := queue.rows;
    SeenIs(taken, met, id, w, m, weather);
    if weather.lookOk && id in queue.rows && queue.rows[id].cancelRequested {
      PassStops(first, taken, met, results, id, claimed, w, max, m, weather);
      return true, run, claimed;
    }
    Cancellations(queue, m.late, m.now, max, table.results);
    ghost var late := queue.rows;
    var _ := Finish(queue, table, w, id, attempt, m.now, max, m.result, weather);
    PassEnds(first, taken, met, late, queue.rows, results, table.results, id, claimed, w, max, m, weather);
    return true, run, claimed;
  }

  lemma SelectedIs(first: map<RunId, Row>, taken: map<RunId, Row>, id: RunId, claimed: RunId, w: WorkerId, m: Meanwhile)
    requires claimed in first && taken == first[claimed := ClaimRow(first[claimed], w, m.now, m.expiry)]
    requires id in taken && Owned(taken[id], w)
    ensures id in first && taken[id] == AsClaimed(first, Some(claimed), id, w, m) && (claimed == id || Owned(first[id], w))
  {}

  lemma SeenIs(taken: map<RunId, Row>, met: map<RunId, Row>, id: RunId, w: WorkerId, m: Meanwhile, weather: Weather)
    requires id in taken && Owned(taken[id], w) && Served(taken, met, w, id, m.canceled, m.now)
    ensures id in met && (weather.lookOk && met[id].cancelRequested <==> SawCancel(id, taken[id], m, weather))
  {}

  // ------------------------------------------------------------------- the drain loop

  /** What comes with each pass of the loop. */
  type Passes = nat -> (Meanwhile, Weather)

  /** Every statement gets through and nobody cancels. */
  predicate Smooth(m: Meanwhile, weather: Weather) {
    && weather == Weather(true, true, true, true, true, true, true, true)
    && m.canceled == [] && m.late == []
  }

  ghost predicate Unused(rows: map<RunId, Row>, results: map<ResultId, Stored>, id: ResultId) {
    id !in results && forall o :: o in rows ==> rows[o].resultId != Some(id)
  }

  /** The clock is past every update. */
  ghost predicate Past(rows: map<RunId, Row>, now: Text) { forall o :: o in rows ==> Earlier(rows[o].updated, now) }

  /** From the n-th pass on all is smooth, result ids are new and the clock goes on. */
  ghost predicate Fair(env: Passes, n: nat, rows: map<RunId, Row>, results: map<ResultId, Stored>) {
    && (forall k :: n <= k ==> Smooth(env(k).0, env(k).1) && Unused(rows, results, env(k).0.result.id) && Past(rows, env(k).0.now))
    && forall j, k :: n <= j < k ==> env(j).0.result.id != env(k).0.result.id && Earlier(env(j).0.now, env(k).0.now)
  }

  /** The row is completed, and its result stored. */
  ghost predicate Done(r: Row, results: map<ResultId, Stored>) { r.status == Completed && r.resultId.Some? && BackedBy(r, results) }

  ghost predicate NoneEligible(rows: map<RunId, Row>, now: Text, max: nat) { forall o :: o in rows ==> !Eligible(rows[o], now, max) }

  ghost predicate AllUntouched(first: map<RunId, Row>, rows: map<RunId, Row>, results: map<ResultId, Stored>) {
    rows.Keys == first.Keys && forall o :: o in first ==> Untouched(first[o], rows[o], results)
  }

  /** The pass got its claim through. */
  predicate Claims(env: Passes, k: nat) { env(k).1.claimOk && env(k).1.readBackOk }

  /** Nothing has happened to the row, or it is done; unless it was canceled before. */
  ghost predicate Untouched(b: Row, a: Row, results: map<ResultId, Stored>) { a == b || Done(a, results) || b.cancelRequested }

  /** A smooth pass keeps what is to come fair, and completes what it claims. */
  lemma FairPass(env: Passes, n: nat, before: map<RunId, Row>, after: map<RunId, Row>, results: map<ResultId, Stored>, results': map<ResultId, Stored>,
                 run: RunId, w: WorkerId, max: nat)
    requires Fair(env, n, before, results) && run in before && run in after && after.Keys == before.Keys
    requires Passed(before, after, results, results', run, Some(run), w, max, env(n).0, env(n).1)
    ensures Fair(env, n + 1, after, results')
    ensures !before[run].cancelRequested ==> Done(after[run], results')
    ensures forall o :: o in before && o != run ==> after[o] == before[o]
  {
    var (m, weather) := env(n);
    assert Smooth(m, weather) && Unused(before, results, m.result.id) && Past(before, m.now);
    SmoothPass(before, after, results, results', run, w, max, m, weather);
    forall k | n + 1 <= k ensures Unused(after, results', env(k).0.result.id) && Past(after, env(k).0.now) {
      assert Unused(before, results, env(k).0.result.id) && Past(before, env(k).0.now);
      assert env(n).0.result.id != env(k).0.result.id && Earlier(env(n).0.now, env(k).0.now);
    }
    hide Unused, Past, Passed, Smooth, Done;
  }

  lemma SmoothPass(before: map<RunId, Row>, after: map<RunId, Row>, results: map<ResultId, Stored>, results': map<ResultId, Stored>,
                   run: RunId, w: WorkerId, max: nat, m: Meanwhile, weather: Weather)
    requires Smooth(m, weather) && Unused(before, results, m.result.id) && run in before && run in after && after.Keys == before.Keys
    requires Passed(before, after, results, results', run, Some(run), w, max, m, weather)
    ensures results'.Keys <= results.Keys + {m.result.id}
    ensures forall o :: o in before ==> after[o].resultId == before[o].resultId || after[o].resultId == Some(m.result.id)
    ensures forall o :: o in before ==> TouchedBy(before[o], after[o], m.now)
    ensures forall o :: o in before && o != run ==> after[o] == before[o]
    ensures !before[run].cancelRequested ==> Done(after[run], results')
  {
    assert run !in m.canceled && run !in m.late && m.canceled + m.late == [];
  }

  /** The drain loop of `run`: with no new submissions it stops, whatever the
      translations, cancellations and the stores do.  When it stops, nothing was
      claimable at the moment it last looked, or the last claim failed; and where
      all went smoothly, every row that was waiting with attempts left is completed. */
  method Drain(queue: LifecycleStore, table: ResultTable, w: WorkerId, max: nat, env: Passes) returns (passes: nat)
    requires queue.Valid(max) && Backed(queue.rows, table.results)
    modifies queue, table
    ensures queue.Valid(max) && Backed(queue.rows, table.results)
    ensures Kept(old(table.results), table.results)
    ensures passes > 0 && (Claims(env, passes - 1) ==> NoneEligible(queue.rows, env(passes - 1).0.now, max))
    ensures Remaining(queue.rows, max) <= Remaining(old(queue.rows), max)
    ensures Fair(env, 0, old(queue.rows), old(table.results)) ==>
              forall o :: o in old(queue.rows) && old(queue.rows)[o].status == Queued && old(queue.rows)[o].attempt < max && !old(queue.rows)[o].cancelRequested ==>
                o in queue.rows && Done(queue.rows[o], table.results)
  {
    passes := 0;
    var found := true;
    ghost var fair, first := Fair(env, 0, queue.rows, table.results), queue.rows;
    NothingTouched(first, table.results);
    hide Remaining, Backed, Fair, Passed, AllUntouched, Kept, NoneEligible, Oldest, Earlier, Claims;
    while found
      invariant queue.Valid(max) && Backed(queue.rows, table.results)
      invariant Kept(old(table.results), table.results)
      invariant !found ==> passes > 0 && (Claims(env, passes - 1) ==> NoneEligible(queue.rows, env(passes - 1).0.now, max))
      invariant Remaining(queue.rows, max) <= Remaining(old(queue.rows), max)
      invariant fair ==> AllUntouched(first, queue.rows, table.results) && if found then Fair(env, passes, queue.rows, table.results) else Claims(env, passes - 1)
      decreases Remaining(queue.rows, max), found
    {
      ghost var before, results := queue.rows, table.results;
      found := OnePass(queue, table, w, max, env, passes, first, fair);
      KeptOn(old(table.results), results, table.results);
      passes := passes + 1;
    }
    if fair { WaitingAreDone(first, queue.rows, table.results, env(passes - 1).0.now, max); }
  }

  /** One pass, and what stays true of the loop. */
  method OnePass(queue: LifecycleStore, table: ResultTable, w: WorkerId, max: nat, env: Passes, k: nat, ghost first: map<RunId, Row>, ghost fair: bool)
    returns (found: bool)
    requires queue.Valid(max) && Backed(queue.rows, table.results)
    requires fair ==> Fair(env, k, queue.rows, table.results) && AllUntouched(first, queue.rows, table.results)
    modifies queue, table
    ensures queue.Valid(max) && Backed(queue.rows, table.results) && Kept(old(table.results), table.results)
    ensures !found && Claims(env, k) ==> NoneEligible(queue.rows, env(k).0.now, max)
    ensures Remaining(queue.rows, max) <= Remaining(old(queue.rows), max)
    ensures found ==> Remaining(queue.rows, max) < Remaining(old(queue.rows), max)
    ensures fair ==> AllUntouched(first, queue.rows, table.results) && if found then Fair(env, k + 1, queue.rows, table.results) else Claims(env, k)
  {
    hide Remaining, Backed, Fair, Passed, AllUntouched, Kept, Eligible, Oldest, Earlier;
    var (m, weather) := env(k);
    ghost var before, results := queue.rows, table.results;
    ghost var run, claimed;
    found, run, claimed := ProcessOne(queue, table, w, max, m, weather);
    if fair {
      FairNow(env, k, before, results);
      if found {
        ClaimedWaits(before, run, m.now, max);
        FairDrain(env, k, first, before, queue.rows, results, table.results, run, w, max);
      }
    }
  }

  lemma NothingTouched(rows: map<RunId, Row>, results: map<ResultId, Stored>)
    ensures AllUntouched(rows, rows, results) && Kept(results, results)
  {}

  lemma KeptOn(a: map<ResultId, Stored>, b: map<ResultId, Stored>, c: map<ResultId, Stored>)
    requires Kept(a, b) && Kept(b, c)
    ensures Kept(a, c)
  {}

  lemma WaitingAreDone(first: map<RunId, Row>, rows: map<RunId, Row>, results: map<ResultId, Stored>, now: Text, max: nat)
    requires AllUntouched(first, rows, results) && NoneEligible(rows, now, max)
    ensures forall o :: o in first && first[o].status == Queued && first[o].attempt < max && !first[o].cancelRequested ==> o in rows && Done(rows[o], results)
  {
    hide Done;
    forall o | o in first && first[o].status == Queued && first[o].attempt < max && !first[o].cancelRequested ensures Done(rows[o], results) {
      assert Untouched(first[o], rows[o], results);
      assert !Eligible(rows[o], now, max);
    }
  }

  lemma ClaimedWaits(rows: map<RunId, Row>, run: RunId, now: Text, max: nat)
    requires Oldest(rows, run, now, max)
    ensures run in rows && rows[run].status != Completed
  {}

  lemma FairNow(env: Passes, n: nat, rows: map<RunId, Row>, results: map<ResultId, Stored>)
    requires Fair(env, n, rows, results)
    ensures env(n).1.claimOk && env(n).1.readBackOk && forall o :: o in rows ==> Earlier(rows[o].updated, env(n).0.now)
  {
    assert Smooth(env(n).0, env(n).1) && Past(rows, env(n).0.now);
  }

  lemma FairDrain(env: Passes, n: nat, first: map<RunId, Row>, before: map<RunId, Row>, after: map<RunId, Row>, results: map<ResultId, Stored>,
                  results': map<ResultId, Stored>, run: RunId, w: WorkerId, max: nat)
    requires Fair(env, n, before, results) && run in before && run in after && after.Keys == before.Keys
    requires Passed(before, after, results, results', run, Some(run), w, max, env(n).0, env(n).1)
    requires Kept(results, results') && AllUntouched(first, before, results)
    requires before[run].status != Completed
    ensures Fair(env, n + 1, after, results') && AllUntouched(first, after, results')
  {
    FairPass(env, n, before, after, results, results', run, w, max);
    hide Fair, Passed;
    forall o | o in first ensures Untouched(first[o], after[o], results') {
      assert Untouched(first[o], before[o], results);
    }
  }

  // ------------------------------------------------------ the measure over runs

  /** Over every interleaving: only an insert raises the attempts left, and every
      claim lowers them. */
  lemma MeasureStep(cfg: Config, s: State, step: Step)
    requires Enabled(cfg, s, step) && !step.Insert?
    ensures Remaining(Apply(cfg, s, step).rows, cfg.max) <= Remaining(s.rows, cfg.max)
    ensures step.Claim? ==> Remaining(Apply(cfg, s, step).rows, cfg.max) < Remaining(s.rows, cfg.max)
  {
    hide Remaining;
    var t := Apply(cfg, s, step);
    var id := TouchedRow(cfg, s, step);
    if id in s.rows {
      RowChange(cfg, s, step, id);
      RemainingUpdate(s.rows, id, t.rows[id], cfg.max);
    }
  }

  /** The one row a step may change. */
  lemma TouchedRow(cfg: Config, s: State, step: Step) returns (id: RunId)
    requires Enabled(cfg, s, step) && !step.Insert?
    ensures step.Claim? ==> id == step.id && id in s.rows
    ensures Apply(cfg, s, step).rows == if id in s.rows then s.rows[id := Apply(cfg, s, step).rows[id]] else s.rows
  {
    id := 0;
    match step
    case Claim(_, x) => id := x;
    case Beat(_, x) => id := x;
    case Cancel(x) => id := x;
    case Complete(w, _) => id := s.workers[w].run;
    case Fail(w, _) => id := s.workers[w].run;
    case _ =>
  }

  function ClaimCount(steps: seq<Step>): nat {
    if steps == [] then 0 else ClaimCount(steps[..|steps| - 1]) + if steps[|steps| - 1].Claim? then 1 else 0
  }

  /** From any state on, as long as nothing is inserted, there are at most as many
      claims as attempts were left: the drain loop cannot go on for ever. */
  lemma {:induction false} ClaimsBounded(cfg: Config, states: seq<State>, steps: seq<Step>, i: nat, j: nat)
    requires IsRun(cfg, states, steps) && i <= j <= |steps|
    requires forall k :: i <= k < j ==> !steps[k].Insert?
    ensures ClaimCount(steps[i..j]) + Remaining(states[j].rows, cfg.max) <= Remaining(states[i].rows, cfg.max)
    decreases j - i
  {
    hide Remaining, Apply, Enabled;
    if i < j {
      ClaimsBounded(cfg, states, steps, i, j - 1);
      MeasureStep(cfg, states[j - 1], steps[j - 1]);
      assert steps[i..j][..j - 1 - i] == steps[i..j - 1];
    }
  }
}
