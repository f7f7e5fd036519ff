/** One synchronisation cycle of the client (src/lib/syncManager.ts): replay the queued
    operations against the server, then replace the cache with the server's list. The
    network is an oracle: `remote(i)` says whether the request for the `i`-th operation of
    the queue as read succeeds (an operation that cannot become a request still uses up its
    position), and a `PullResult` says what the final GET returned. */
module SyncManager {
  import opened Wrappers
  import opened Scans
  import opened LocalDb
  import Seqs

  /** `MAX_RETRIES`. */
  const MaxRetries: int := 5

  const ScansUrl: string := "/api/scans"

  /** The URL of one record: `/api/scans/${scanId}`. */
  function ScanUrl(scanId: string): string {
    ScansUrl + "/" + scanId
  }

  datatype HttpMethod = HttpGet | HttpPost | HttpPatch | HttpDelete

  /** A request to the server, with its JSON body if any. */
  datatype Request = Request(verb: HttpMethod, url: string, body: Option<ScanPatch>)

  /** `processOperation`: the request an operation replays, or the error it throws when a
      create or update carries no data. A delete never needs data. */
  function ProcessOperation(op: SyncOperation): (r: Result<Request, string>)
    ensures r.Failure? <==> op.kind != Delete && op.data.None?
    ensures r.Success? ==> r.value.body == (if op.kind == Delete then None else op.data)
    ensures r.Success? ==> (r.value.verb == HttpPost <==> op.kind == Create)
    ensures r.Success? ==> (r.value.url == ScansUrl <==> op.kind == Create)
    ensures r.Success? && op.kind == Update ==> r.value.verb == HttpPatch && r.value.url == ScanUrl(op.scanId)
    ensures r.Success? && op.kind == Delete ==> r.value.verb == HttpDelete && r.value.url == ScanUrl(op.scanId)
  {
    match op.kind
    case Create =>
      if op.data.None? then Failure("No data for create operation")
      else Success(Request(HttpPost, ScansUrl, op.data))
    case Update =>
      if op.data.None? then Failure("No data for update operation")
      else Success(Request(HttpPatch, ScanUrl(op.scanId), op.data))
    case Delete =>
      Success(Request(HttpDelete, ScanUrl(op.scanId), None))
  }

  /** The record an update or delete addresses can be read back from its URL. */
  lemma RequestNamesRecord(op: SyncOperation)
    requires ProcessOperation(op).Success? && op.kind != Create
    ensures var url := ProcessOperation(op).value.url;
      |url| >= |ScansUrl| + 1 && url[..|ScansUrl| + 1] == ScansUrl + "/"
      && url[|ScansUrl| + 1..] == op.scanId
  {
    var url := ProcessOperation(op).value.url;
    assert url == (ScansUrl + "/") + op.scanId;
  }

  /** Whether the `i`-th attempt of a cycle succeeds: the operation must turn into a request
      and the server must accept that request. */
  function Attempt(op: SyncOperation, i: nat, remote: nat -> bool): bool {
    ProcessOperation(op).Success? && remote(i)
  }

  /** An operation after one more failed replay. */
  function Retried(op: SyncOperation): SyncOperation {
    op.(retries := op.retries + 1)
  }

  /** The queue after one attempt: a success removes the operation; a failure raises its
      `retries` by one and removes it once that count reaches `MaxRetries`, or stores it
      with the new count. Other operations are untouched. */
  function AfterAttempt(q: OpStore, op: SyncOperation, ok: bool): (r: OpStore)
    ensures op.id in r <==> !ok && op.retries + 1 < MaxRetries
    ensures op.id in r ==> r[op.id] == Retried(op)
    ensures forall k :: k != op.id ==> (k in r <==> k in q)
    ensures forall k :: k != op.id && k in r ==> r[k] == q[k]
  {
    if ok then RemoveFromSyncQueue(q, op.id)
    else
      var failed := Retried(op);
      if failed.retries >= MaxRetries then RemoveFromSyncQueue(q, op.id)
      else PutOperation(q, failed)
  }

  /** `processSyncQueue`: attempts the operations of the snapshot `ops` one after another;
      `start` numbers the first attempt. */
  function Drain(q: OpStore, ops: seq<SyncOperation>, remote: nat -> bool, start: nat): (r: OpStore)
    ensures forall k :: k in r ==>
      || (k in q && r[k] == q[k])
      || r[k] in Seqs.Map(ops, Retried)
    decreases |ops|
  {
    if |ops| == 0 then q
    else Drain(AfterAttempt(q, ops[0], Attempt(ops[0], start, remote)), ops[1..], remote, start + 1)
  }

  /** Ids no operation of the snapshot carries keep their stored operation. */
  lemma {:induction false} DrainFrame(q: OpStore, ops: seq<SyncOperation>, remote: nat -> bool, start: nat, k: string)
    requires forall o :: o in ops ==> o.id != k
    ensures k in Drain(q, ops, remote, start) <==> k in q
    ensures k in q ==> Drain(q, ops, remote, start)[k] == q[k]
    decreases |ops|
  {
    if |ops| > 0 {
      DrainFrame(AfterAttempt(q, ops[0], Attempt(ops[0], start, remote)), ops[1..], remote, start + 1, k);
    }
  }

  /** No two operations of a snapshot share an id. */
  predicate DistinctIds(ops: seq<SyncOperation>) {
    forall a, b :: 0 <= a < b < |ops| ==> ops[a].id != ops[b].id
  }

  /** The first operation's id does not recur, and the rest still has distinct ids. */
  lemma DistinctIdsTail(ops: seq<SyncOperation>)
    requires |ops| > 0 && DistinctIds(ops)
    ensures DistinctIds(ops[1..])
    ensures forall o :: o in ops[1..] ==> o.id != ops[0].id
  {
    forall o | o in ops[1..]
      ensures o.id != ops[0].id
    {
      var b :| 0 <= b < |ops[1..]| && ops[1..][b] == o;
      assert ops[b + 1] == o;
    }
  }

  /** The first operation of a snapshot with distinct ids: its own attempt decides its fate,
      and the later attempts leave it alone. */
  lemma DrainFateHead(q: OpStore, ops: seq<SyncOperation>, remote: nat -> bool, start: nat)
    requires |ops| > 0 && DistinctIds(ops)
    ensures var r := Drain(q, ops, remote, start);
      var ok := Attempt(ops[0], start, remote);
      && (ops[0].id in r <==> !ok && ops[0].retries + 1 < MaxRetries)
      && (ops[0].id in r ==> r[ops[0].id] == Retried(ops[0]))
  {
    var q' := AfterAttempt(q, ops[0], Attempt(ops[0], start, remote));
    DistinctIdsTail(ops);
    DrainFrame(q', ops[1..], remote, start + 1, ops[0].id);
  }

  /** The fate of each operation of a snapshot depends only on its own attempt: removed if it
      succeeded or has now failed `MaxRetries` times, otherwise stored with one more retry.
      A failure does not stop the later attempts. */
  lemma {:induction false} DrainFate(q: OpStore, ops: seq<SyncOperation>, remote: nat -> bool, start: nat, i: nat)
    requires i < |ops| && DistinctIds(ops)
    ensures var r := Drain(q, ops, remote, start);
      var op := ops[i];
      var ok := Attempt(op, start + i, remote);
      && (op.id in r <==> !ok && op.retries + 1 < MaxRetries)
      && (op.id in r ==> r[op.id] == Retried(op))
    decreases |ops|
  {
    if i == 0 {
      DrainFateHead(q, ops, remote, start);
    } else {
      var q' := AfterAttempt(q, ops[0], Attempt(ops[0], start, remote));
      DistinctIdsTail(ops);
      DrainFate(q', ops[1..], remote, start + 1, i - 1);
      assert ops[1..][i - 1] == ops[i];
    }
  }

  /** The queue after `n` cycles in each of which the operation stored under `id` is
      attempted and fails. */
  function FailCycles(q: OpStore, id: string, n: nat): OpStore
    decreases n
  {
    if n == 0 || id !in q then q
    else FailCycles(AfterAttempt(q, q[id], false), id, n - 1)
  }

  /** An operation with fewer than `MaxRetries` failures that keeps failing is still queued,
      one retry higher each time, until its count reaches `MaxRetries`; the cycle that brings
      it there removes it. */
  lemma {:induction false} RetryExhaustion(q: OpStore, id: string, n: nat)
    requires id in q && q[id].retries < MaxRetries
    ensures var r := FailCycles(q, id, n);
      && (id in r <==> q[id].retries + n < MaxRetries)
      && (id in r ==> r[id] == q[id].(retries := q[id].retries + n))
    decreases n
  {
    if n > 0 {
      var q' := AfterAttempt(q, q[id], false);
      if id in q' {
        RetryExhaustion(q', id, n - 1);
      }
    }
  }

  /** An operation queued with no failures is removed on exactly its fifth failing cycle. */
  lemma FifthFailureRemoves(q: OpStore, id: string)
    requires id in q && q[id].retries == 0
    ensures id in FailCycles(q, id, 4) && FailCycles(q, id, 4)[id].retries == 4
    ensures id !in FailCycles(q, id, 5)
  {
    RetryExhaustion(q, id, 4);
    RetryExhaustion(q, id, 5);
  }

  /** `getPendingCount`: the length of the queue as read. */
  method GetPendingCount(q: OpStore) returns (n: nat)
    ensures n == |q|
  {
    var ops := GetSyncQueue(q);
    n := |ops|;
  }

  /** The status passed to the listeners, with the pending count. */
  datatype SyncStatus = Idle | Syncing | Error | Offline

  datatype StatusReport = StatusReport(status: SyncStatus, pendingCount: int)

  /** What the final GET returned: a failure (thrown by the request), or a response whose
      `scans` field may be missing. */
  datatype PullResult = PullFailed | Pulled(scans: Option<seq<Scan>>)

  /** The client state a cycle touches: the queue, the cache and the `isSyncing` flag. */
  datatype SyncState = SyncState(queue: OpStore, cache: ScanStore, syncing: bool)

  /** `sync`. A call during a cycle does nothing; offline, the cycle only reports `Offline`.
      Otherwise it drains the queue in index order, then pulls unconditionally: a successful
      pull replaces the cache with the cleaned server list even if operations are still
      queued, and reports `Idle` with count 0; a failed pull keeps the cache and reports
      `Error` with the remaining count. The queue keeps what the drain did in both cases. */
  method Sync(st: SyncState, online: bool, remote: nat -> bool, pull: PullResult, now: int)
    returns (ok: bool, st': SyncState, reports: seq<StatusReport>, attempted: seq<SyncOperation>)
    ensures st.syncing ==> !ok && st' == st && reports == [] && attempted == []
    ensures !st.syncing && !online ==>
      !ok && st' == st && reports == [StatusReport(Offline, |st.queue|)] && attempted == []
    ensures !st.syncing && online ==>
      && !st'.syncing
      && QueueOrdered(attempted)
      && |attempted| == |st.queue|
      && (forall o :: o in attempted <==> o.id in st.queue && st.queue[o.id] == o)
      && st'.queue == Drain(st.queue, attempted, remote, 0)
      && (ok <==> pull.Pulled?)
      && (pull.Pulled? ==>
            && st'.cache == SaveScans(pull.scans.GetOr([]), now)
            && reports == [StatusReport(Syncing, |st.queue|), StatusReport(Idle, 0)])
      && (pull.PullFailed? ==>
            && st'.cache == st.cache
            && reports == [StatusReport(Syncing, |st.queue|), StatusReport(Error, |st'.queue|)])
  {
    if st.syncing {
      return false, st, [], [];
    }
    if !online {
      var pending := GetPendingCount(st.queue);
      return false, st, [StatusReport(Offline, pending)], [];
    }
    var pending := GetPendingCount(st.queue);
    reports := [StatusReport(Syncing, pending)];
    attempted := GetSyncQueue(st.queue);
    var queue := Drain(st.queue, attempted, remote, 0);
    match pull {
      case Pulled(scans) =>
        var cache := SaveScans(scans.GetOr([]), now);
        st' := SyncState(queue, cache, false);
        reports := reports + [StatusReport(Idle, 0)];
        ok := true;
      case PullFailed =>
        st' := SyncState(queue, st.cache, false);
        var left := GetPendingCount(queue);
        reports := reports + [StatusReport(Error, left)];
        ok := false;
    }
  }

  /** Within one cycle every queued operation is attempted once, in index order, and ends up
      removed or stored with one more retry according to its own outcome alone. */
  lemma CycleFate(q: OpStore, attempted: seq<SyncOperation>, remote: nat -> bool, i: nat)
    requires QueueOrdered(attempted)
    requires forall o :: o in attempted <==> o.id in q && q[o.id] == o
    requires i < |attempted|
    ensures var r := Drain(q, attempted, remote, 0);
      var op := attempted[i];
      var ok := Attempt(op, i, remote);
      && op == q[op.id]
      && (op.id in r <==> !ok && op.retries + 1 < MaxRetries)
      && (op.id in r ==> r[op.id] == Retried(op))
  {
    assert DistinctIds(attempted) by {
      QueueIdsDistinct(q, attempted);
    }
    assert attempted[i] == q[attempted[i].id] by {
      assert attempted[i] in attempted;
    }
    DrainFate(q, attempted, remote, 0, i);
  }

  /** After a successful pull the cache keeps the session rule, whatever the server sent. */
  lemma PulledCacheSingleActive(scans: Option<seq<Scan>>, now: int)
    ensures StoreSingleActivePerTag(SaveScans(scans.GetOr([]), now))
  {
    SaveScansSingleActive(scans.GetOr([]), now);
  }
}
