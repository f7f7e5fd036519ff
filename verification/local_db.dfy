/** The client cache (src/lib/db.ts): the `scans` object store and the `syncQueue` object
    store, both keyed by `id`, modelled as maps from key to record. */
module LocalDb {
  import opened Wrappers
  import opened Scans
  import opened Seqs
  import Reconcile

  /** The `scans` store: every record sits under its own `id` (keyPath 'id'). */
  type ScanStore = m: map<string, Scan> | forall k :: k in m ==> m[k].id == k
    witness map[]

  /** `getScan`: the record stored under `id`, if any. */
  function GetScan(m: ScanStore, id: string): (r: Option<Scan>)
    ensures r.Some? <==> id in m
    ensures r.Some? ==> r.value.id == id && r.value == m[id]
  {
    if id in m then Some(m[id]) else None
  }

  /** `forceSaveScan`: a `put`, which inserts or replaces the record with that id. */
  function ForceSaveScan(m: ScanStore, s: Scan): (r: ScanStore)
    ensures r.Keys == m.Keys + {s.id}
    ensures r[s.id] == s
    ensures forall k :: k in m && k != s.id ==> r[k] == m[k]
  {
    m[s.id := s]
  }

  /** `deleteScan`. */
  function DeleteScan(m: ScanStore, id: string): (r: ScanStore)
    ensures r.Keys == m.Keys - {id}
    ensures forall k :: k in r ==> r[k] == m[k]
  {
    m - {id}
  }

  /** A record saved with `put` is read back unchanged, and a deleted one is gone. */
  lemma PutGetDelete(m: ScanStore, s: Scan)
    ensures GetScan(ForceSaveScan(m, s), s.id) == Some(s)
    ensures GetScan(DeleteScan(ForceSaveScan(m, s), s.id), s.id) == None
    ensures forall k :: k != s.id ==> GetScan(ForceSaveScan(m, s), k) == GetScan(m, k)
  {
  }

  /** Whether saving `scan` force-closes the stored record `s`: `scan` is active and `s` is
      another active record of the same tag. */
  predicate ClosedBySave(s: Scan, scan: Scan) {
    Active(scan) && s.tagId == scan.tagId && s.id != scan.id && Active(s)
  }

  /** Every record that saving `scan` force-closes, closed at `now`. */
  function CloseDuplicates(m: ScanStore, scan: Scan, now: int): (r: ScanStore)
    ensures r.Keys == m.Keys
  {
    map k | k in m :: if ClosedBySave(m[k], scan) then m[k].(endTime := Some(now)) else m[k]
  }

  /** Whether saving `scan` tries to reopen a stored record that is closed. */
  predicate ReopensClosed(m: ScanStore, scan: Scan) {
    scan.id in m && !Active(m[scan.id]) && Active(scan)
  }

  /** The record `saveScan` finally writes: an attempt to reopen keeps the stored exit time. */
  function Guarded(m: ScanStore, scan: Scan): Scan {
    if ReopensClosed(m, scan) then scan.(endTime := m[scan.id].endTime) else scan
  }

  /** `saveScan` as written: first force-close the other active records of the tag, then
      write the scan, keeping a stored exit time if the scan would reopen its record.
      A closed record is never reopened; saving an active scan leaves at most one active
      record for its tag; records of other tags and closed records are left as they were,
      and the other active records of the tag are closed at `now` with nothing else
      changed. */
  function SaveScan(m: ScanStore, scan: Scan, now: int): (r: ScanStore)
    ensures r.Keys == m.Keys + {scan.id}
    ensures scan.id in m && !Active(m[scan.id]) ==>
      && !Active(r[scan.id])
      && r[scan.id] == (if Active(scan) then scan.(endTime := m[scan.id].endTime) else scan)
    ensures scan.id !in m || Active(m[scan.id]) ==> r[scan.id] == scan
    ensures Active(scan) ==>
      forall k :: k in r && Active(r[k]) && r[k].tagId == scan.tagId ==> k == scan.id
    ensures forall k :: k in m && k != scan.id ==>
      r[k] == (if Active(scan) && Active(m[k]) && m[k].tagId == scan.tagId
               then m[k].(endTime := Some(now)) else m[k])
  {
    ForceSaveScan(CloseDuplicates(m, scan, now), Guarded(m, scan))
  }

  /** `saveScan` with the reopening check done first: the other records of the tag are
      closed only if the record written is active. It never reopens, leaves one active
      record per tag whenever the record written is active, changes no other record when it
      refuses a reopening, and otherwise does what `SaveScan` does. */
  function SaveScanGuardFirst(m: ScanStore, scan: Scan, now: int): (r: ScanStore)
    ensures r.Keys == m.Keys + {scan.id}
    ensures scan.id in m && !Active(m[scan.id]) ==> !Active(r[scan.id])
    ensures Active(r[scan.id]) ==>
      forall k :: k in r && Active(r[k]) && r[k].tagId == scan.tagId ==> k == scan.id
    ensures ReopensClosed(m, scan) ==> forall k :: k in m && k != scan.id ==> r[k] == m[k]
    ensures !ReopensClosed(m, scan) ==> r == SaveScan(m, scan, now)
  {
    var g := Guarded(m, scan);
    ForceSaveScan(CloseDuplicates(m, g, now), g)
  }

  /** A blocked reopening still closes the other session of the tag: with a closed record
      `a` and an active record `b` of tag "t", saving `a` with no exit time leaves tag "t"
      without any active record, although nothing was opened. */
  lemma BlockedReopenClosesOtherSession()
    ensures var a := Scan("a", Some("t"), "daggast", 1, 0, 10, Some(20));
      var b := Scan("b", Some("t"), "daggast", 2, 0, 30, None);
      var m: ScanStore := map["a" := a, "b" := b];
      var r := SaveScan(m, a.(endTime := None), 40);
      && Active(m["b"])
      && r["b"] == b.(endTime := Some(40))
      && (forall k :: k in r ==> !Active(r[k]))
      && SaveScanGuardFirst(m, a.(endTime := None), 40)["b"] == b
  {
    var a := Scan("a", Some("t"), "daggast", 1, 0, 10, Some(20));
    var b := Scan("b", Some("t"), "daggast", 2, 0, 30, None);
    var m: ScanStore := map["a" := a, "b" := b];
    assert m.Keys == {"a", "b"};
    assert "a" != "b";
  }

  /** Puts `scans` one after another, as the batch of `put` requests of `saveScans` does: a
      later record replaces an earlier one with the same id. */
  function PutAll(m: ScanStore, scans: seq<Scan>): (r: ScanStore)
    ensures forall k :: k in m ==> k in r
    ensures forall s :: s in scans ==> s.id in r
    ensures forall k :: k in r ==> r[k] in scans || (k in m && r[k] == m[k])
    decreases |scans|
  {
    if |scans| == 0 then m
    else
      var r := PutAll(ForceSaveScan(m, scans[0]), scans[1..]);
      assert scans == [scans[0]] + scans[1..];
      r
  }

  /** The last record put under an id is the one stored, and keys no record touches keep
      their record. */
  lemma {:induction false} PutAllLastWins(m: ScanStore, scans: seq<Scan>, i: nat)
    requires i < |scans|
    requires forall j :: i < j < |scans| ==> scans[j].id != scans[i].id
    ensures PutAll(m, scans)[scans[i].id] == scans[i]
    decreases |scans|
  {
    if i > 0 {
      PutAllLastWins(ForceSaveScan(m, scans[0]), scans[1..], i - 1);
    } else {
      PutAllUntouched(ForceSaveScan(m, scans[0]), scans[1..], scans[0].id);
    }
  }

  lemma {:induction false} PutAllUntouched(m: ScanStore, scans: seq<Scan>, k: string)
    requires k in m
    requires forall s :: s in scans ==> s.id != k
    ensures PutAll(m, scans)[k] == m[k]
    decreases |scans|
  {
    if |scans| > 0 {
      PutAllUntouched(ForceSaveScan(m, scans[0]), scans[1..], k);
    }
  }

  /** `saveScans`: clears the store and puts the cleaned list. Nothing from before the call
      survives: every stored record is a record of the cleaned list. */
  function SaveScans(scans: seq<Scan>, now: int): (r: ScanStore)
    ensures forall k :: k in r ==> r[k] in Reconcile.EnforceActiveSessionRule(scans, now)
  {
    PutAll(map[], Reconcile.EnforceActiveSessionRule(scans, now))
  }

  /** Putting a list into an empty store keeps exactly the list's ids. */
  lemma PutAllIds(xs: seq<Scan>)
    ensures forall k :: k in PutAll(map[], xs) <==> k in Ids(xs)
  {
    var m := PutAll(map[], xs);
    forall k
      ensures k in m <==> k in Ids(xs)
    {
      if k in Ids(xs) {
        var j :| 0 <= j < |xs| && Ids(xs)[j] == k;
        assert xs[j] in xs;
      }
      if k in m {
        var j :| 0 <= j < |xs| && xs[j] == m[k];
        assert Ids(xs)[j] == k;
      }
    }
  }

  /** Two lists with the same multiset of ids have the same ids. */
  lemma SameIds(a: seq<Scan>, b: seq<Scan>)
    requires multiset(Ids(a)) == multiset(Ids(b))
    ensures forall k :: k in Ids(a) <==> k in Ids(b)
  {
    forall k
      ensures k in Ids(a) <==> k in Ids(b)
    {
      assert k in Ids(a) <==> k in multiset(Ids(a));
      assert k in Ids(b) <==> k in multiset(Ids(b));
    }
  }

  /** The store after `saveScans` holds exactly the ids of the incoming list. */
  lemma SaveScansKeepsIds(scans: seq<Scan>, now: int)
    ensures forall k :: k in SaveScans(scans, now) <==> k in Ids(scans)
  {
    var r := Reconcile.EnforceActiveSessionRule(scans, now);
    Reconcile.EnforceKeepsEveryRecord(scans, now);
    SameIds(r, scans);
    PutAllIds(r);
  }

  /** The store's form of the session rule: two active records of one tag are one record. */
  ghost predicate StoreSingleActivePerTag(m: ScanStore) {
    forall k1, k2 ::
      k1 in m && k2 in m && Active(m[k1]) && Active(m[k2]) && m[k1].tagId == m[k2].tagId ==> k1 == k2
  }

  /** Putting a list with one active record per tag into an empty store keeps the rule. */
  lemma PutAllSingleActive(xs: seq<Scan>)
    requires SingleActivePerTag(xs)
    ensures StoreSingleActivePerTag(PutAll(map[], xs))
  {
    var m := PutAll(map[], xs);
    forall k1, k2 | k1 in m && k2 in m && Active(m[k1]) && Active(m[k2]) && m[k1].tagId == m[k2].tagId
      ensures k1 == k2
    {
      var t := m[k1].tagId;
      var i :| 0 <= i < |xs| && xs[i] == m[k1];
      var j :| 0 <= j < |xs| && xs[j] == m[k2];
      AtMostOneMatch(xs, ActiveWithTag(t), i, j);
    }
  }

  /** After `saveScans`, every tag has at most one active record in the store. */
  lemma SaveScansSingleActive(scans: seq<Scan>, now: int)
    ensures StoreSingleActivePerTag(SaveScans(scans, now))
  {
    Reconcile.EnforceSingleActivePerTag(scans, now);
    PutAllSingleActive(Reconcile.EnforceActiveSessionRule(scans, now));
  }

  /** When no incoming record carries a tag, as with every record the server creates, the
      store after `saveScans` holds at most one active record in all. */
  lemma UntaggedStoreOneActive(scans: seq<Scan>, now: int, k1: string, k2: string)
    requires forall s :: s in scans ==> s.tagId.None?
    requires k1 in SaveScans(scans, now) && Active(SaveScans(scans, now)[k1])
    requires k2 in SaveScans(scans, now) && Active(SaveScans(scans, now)[k2])
    ensures k1 == k2
  {
    var m := SaveScans(scans, now);
    Reconcile.EnforceKeepsNewest(scans, now, m[k1]);
    Reconcile.EnforceKeepsNewest(scans, now, m[k2]);
    SaveScansSingleActive(scans, now);
  }

  /** The kind of change a queued operation replays on the server. */
  datatype OpKind = Create | Update | Delete

  /** The `Partial<Scan>` payload of an operation: any subset of the record's fields. */
  datatype ScanPatch = ScanPatch(
    id: Option<string>,
    guestType: Option<string>,
    adults: Option<int>,
    children: Option<int>,
    entryTime: Option<int>,
    endTime: Option<Option<int>>)

  /** `SyncOperation`: a pending change, with how often replaying it has failed. */
  datatype SyncOperation = SyncOperation(
    id: string,
    kind: OpKind,
    scanId: string,
    data: Option<ScanPatch>,
    timestamp: int,
    retries: int)

  /** The `syncQueue` store: every operation sits under its own `id`. */
  type OpStore = q: map<string, SyncOperation> | forall k :: k in q ==> q[k].id == k
    witness map[]

  /** `addToSyncQueue` and `updateSyncOperation`, which are the same `put`. */
  function PutOperation(q: OpStore, op: SyncOperation): (r: OpStore)
    ensures r.Keys == q.Keys + {op.id}
    ensures r[op.id] == op
    ensures forall k :: k in q && k != op.id ==> r[k] == q[k]
  {
    q[op.id := op]
  }

  /** `removeFromSyncQueue`. */
  function RemoveFromSyncQueue(q: OpStore, id: string): (r: OpStore)
    ensures r.Keys == q.Keys - {id}
    ensures forall k :: k in r ==> r[k] == q[k]
  {
    q - {id}
  }

  /** `clearSyncQueue`. */
  function ClearSyncQueue(): OpStore {
    map[]
  }

  /** A put operation is the one stored under its id, and removing it leaves the others. */
  lemma PutThenRemove(q: OpStore, op: SyncOperation)
    ensures op.id in PutOperation(q, op) && PutOperation(q, op)[op.id] == op
    ensures RemoveFromSyncQueue(PutOperation(q, op), op.id) == RemoveFromSyncQueue(q, op.id)
    ensures op.id !in q ==> RemoveFromSyncQueue(PutOperation(q, op), op.id) == q
    ensures |ClearSyncQueue()| == 0
  {
  }

  /** Key order of strings: code-point by code-point, a proper prefix first. */
  predicate StringLess(a: string, b: string)
    decreases |a|
  {
    |b| > 0 && (|a| == 0 || a[0] < b[0] || (a[0] == b[0] && StringLess(a[1..], b[1..])))
  }

  lemma {:induction false} StringLessIrreflexive(a: string)
    ensures !StringLess(a, a)
    decreases |a|
  {
    if |a| > 0 {
      StringLessIrreflexive(a[1..]);
    }
  }

  lemma {:induction false} StringLessTransitive(a: string, b: string, c: string)
    requires StringLess(a, b) && StringLess(b, c)
    ensures StringLess(a, c)
    decreases |a|
  {
    if |a| > 0 && a[0] == b[0] && b[0] == c[0] {
      StringLessTransitive(a[1..], b[1..], c[1..]);
    }
  }

  lemma {:induction false} StringLessTotal(a: string, b: string)
    requires a != b
    ensures StringLess(a, b) || StringLess(b, a)
    decreases |a|
  {
    if |a| > 0 && |b| > 0 && a[0] == b[0] {
      assert a == [a[0]] + a[1..];
      assert b == [b[0]] + b[1..];
      StringLessTotal(a[1..], b[1..]);
    }
  }

  /** The order in which the `timestamp` index returns operations: by `timestamp`, and on
      equal timestamps by primary key. */
  predicate Precedes(a: SyncOperation, b: SyncOperation) {
    a.timestamp < b.timestamp || (a.timestamp == b.timestamp && StringLess(a.id, b.id))
  }

  predicate QueueOrdered(ops: seq<SyncOperation>) {
    forall i, j :: 0 <= i < j < |ops| ==> Precedes(ops[i], ops[j])
  }

  /** Two operations with different ids are ordered one way or the other, never both. */
  lemma PrecedesTotal(a: SyncOperation, b: SyncOperation)
    requires a.id != b.id
    ensures Precedes(a, b) != Precedes(b, a)
  {
    StringLessTotal(a.id, b.id);
    if StringLess(a.id, b.id) && StringLess(b.id, a.id) {
      StringLessTransitive(a.id, b.id, a.id);
      StringLessIrreflexive(a.id);
    }
  }

  lemma PrecedesTransitive(a: SyncOperation, b: SyncOperation, c: SyncOperation)
    requires Precedes(a, b) && Precedes(b, c)
    ensures Precedes(a, c)
  {
    if a.timestamp == b.timestamp == c.timestamp {
      StringLessTransitive(a.id, b.id, c.id);
    }
  }

  /** Inserts `x` in front of the first operation it precedes. */
  function InsertOp(x: SyncOperation, ops: seq<SyncOperation>): (r: seq<SyncOperation>)
    ensures |r| == |ops| + 1
    ensures forall o :: o in r <==> o == x || o in ops
  {
    if |ops| == 0 || Precedes(x, ops[0]) then [x] + ops
    else [ops[0]] + InsertOp(x, ops[1..])
  }

  lemma {:induction false} InsertOpKeepsOrder(x: SyncOperation, ops: seq<SyncOperation>)
    requires QueueOrdered(ops)
    requires forall o :: o in ops ==> o.id != x.id
    ensures QueueOrdered(InsertOp(x, ops))
  {
    if |ops| > 0 && !Precedes(x, ops[0]) {
      PrecedesTotal(x, ops[0]);
      InsertOpKeepsOrder(x, ops[1..]);
      var r := InsertOp(x, ops);
      forall i, j | 0 <= i < j < |r|
        ensures Precedes(r[i], r[j])
      {
        if i == 0 && r[j] != x {
          assert r[j] in ops[1..];
          var j' :| 0 <= j' < |ops[1..]| && ops[1..][j'] == r[j];
          assert Precedes(ops[0], ops[j' + 1]);
        }
      }
    } else if |ops| > 0 {
      var r := InsertOp(x, ops);
      forall i, j | 0 <= i < j < |r|
        ensures Precedes(r[i], r[j])
      {
        if i == 0 && j > 1 {
          PrecedesTransitive(x, ops[0], r[j]);
        }
      }
    }
  }

  /** `getSyncQueue`: every stored operation once, in `timestamp` index order. */
  method GetSyncQueue(q: OpStore) returns (ops: seq<SyncOperation>)
    ensures QueueOrdered(ops)
    ensures forall o :: o in ops <==> o.id in q && q[o.id] == o
    ensures |ops| == |q|
  {
    ops := [];
    var rest := q.Keys;
    while rest != {}
      invariant rest <= q.Keys
      invariant QueueOrdered(ops)
      invariant forall o :: o in ops <==> o.id in q && o.id !in rest && q[o.id] == o
      invariant |ops| + |rest| == |q.Keys|
      decreases |rest|
    {
      var k :| k in rest;
      InsertOpKeepsOrder(q[k], ops);
      ops := InsertOp(q[k], ops);
      rest := rest - {k};
    }
  }

  /** A queue read in index order lists every operation once: no two positions hold the
      same id. */
  lemma QueueIdsDistinct(q: OpStore, ops: seq<SyncOperation>)
    requires QueueOrdered(ops)
    requires forall o :: o in ops ==> o.id in q && q[o.id] == o
    ensures forall i, j :: 0 <= i < j < |ops| ==> ops[i].id != ops[j].id
  {
    forall i, j | 0 <= i < j < |ops|
      ensures ops[i].id != ops[j].id
    {
      assert ops[i] in ops && ops[j] in ops;
      if ops[i].id == ops[j].id {
        StringLessIrreflexive(ops[i].id);
      }
    }
  }
}
