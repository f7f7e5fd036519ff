/** The one-active-session-per-tag rule that the client cache applies to every batch of
    records before storing it (`enforceActiveSessionRule`, src/lib/db.ts). */
module Reconcile {
  import opened Wrappers
  import opened Scans
  import opened Seqs

  predicate DescendingByEntry(s: seq<Scan>) {
    forall i, j :: 0 <= i < j < |s| ==> s[i].entryTime >= s[j].entryTime
  }

  /** Inserts `x`, which preceded every element of `sorted` in the input, in front of the
      first element that is not newer than it: this keeps the sort stable. */
  function InsertByEntryDesc(x: Scan, sorted: seq<Scan>): (r: seq<Scan>)
    ensures |r| == |sorted| + 1
    ensures multiset(r) == multiset(sorted) + multiset{x}
  {
    if |sorted| == 0 || sorted[0].entryTime <= x.entryTime then [x] + sorted
    else
      var tail := InsertByEntryDesc(x, sorted[1..]);
      assert sorted == [sorted[0]] + sorted[1..];
      [sorted[0]] + tail
  }

  /** Inserting adds `x` and nothing else. */
  lemma {:induction false} InsertMembers(x: Scan, sorted: seq<Scan>)
    ensures forall y :: y in InsertByEntryDesc(x, sorted) ==> y == x || y in sorted
  {
    if |sorted| > 0 && sorted[0].entryTime > x.entryTime {
      InsertMembers(x, sorted[1..]);
    }
  }

  lemma {:induction false} InsertKeepsDescending(x: Scan, sorted: seq<Scan>)
    requires DescendingByEntry(sorted)
    ensures DescendingByEntry(InsertByEntryDesc(x, sorted))
  {
    if |sorted| > 0 && sorted[0].entryTime > x.entryTime {
      var tail := InsertByEntryDesc(x, sorted[1..]);
      InsertKeepsDescending(x, sorted[1..]);
      InsertMembers(x, sorted[1..]);
      var r := [sorted[0]] + tail;
      forall i, j | 0 <= i < j < |r|
        ensures r[i].entryTime >= r[j].entryTime
      {
        if i == 0 {
          assert r[j] in tail;
          if r[j] != x {
            var k :| 0 <= k < |sorted[1..]| && sorted[1..][k] == r[j];
            assert sorted[k + 1] == r[j];
          }
        }
      }
    }
  }

  /** The stable sort `activeSessions.sort((a, b) => b.entryTime - a.entryTime)`: newest first,
      ties in input order. */
  function SortByEntryDesc(g: seq<Scan>): (r: seq<Scan>)
    ensures |r| == |g|
    ensures multiset(r) == multiset(g)
  {
    if |g| == 0 then []
    else
      assert g == [g[0]] + g[1..];
      InsertByEntryDesc(g[0], SortByEntryDesc(g[1..]))
  }

  /** The sort's output is ordered newest first. */
  lemma {:induction false} SortIsDescending(g: seq<Scan>)
    ensures DescendingByEntry(SortByEntryDesc(g))
  {
    if |g| > 0 {
      SortIsDescending(g[1..]);
      InsertKeepsDescending(g[0], SortByEntryDesc(g[1..]));
    }
  }

  /** Selects the records entered at time `t`. */
  function EntryIs(t: int): Scan -> bool {
    (s: Scan) => s.entryTime == t
  }

  /** Inserting `x` in front of the records it preceded in the input keeps every class of
      equal `entryTime` in input order: `x` lands before the records of its own time. */
  lemma {:induction false} InsertIsStable(x: Scan, sorted: seq<Scan>, t: int)
    ensures Filter(InsertByEntryDesc(x, sorted), EntryIs(t)) == Filter([x] + sorted, EntryIs(t))
  {
    if |sorted| > 0 && sorted[0].entryTime > x.entryTime {
      var a, rest := sorted[0], sorted[1..];
      var p := EntryIs(t);
      var tail := InsertByEntryDesc(x, rest);
      assert sorted == [a] + rest;
      assert InsertByEntryDesc(x, sorted) == [a] + tail;
      InsertIsStable(x, rest, t);
      FilterCons(a, tail, p);
      FilterCons(x, rest, p);
      FilterCons(x, sorted, p);
      FilterCons(a, rest, p);
      if p(a) {
        assert !p(x);
        assert Filter(tail, p) == Filter(rest, p);
        assert Filter([x] + sorted, p) == Filter(sorted, p);
      } else {
        assert Filter(sorted, p) == Filter(rest, p);
        assert Filter([a] + tail, p) == Filter(tail, p);
      }
    }
  }

  /** The sort is stable: the records of any one `entryTime` come out in input order. */
  lemma {:induction false} SortIsStable(g: seq<Scan>, t: int)
    ensures Filter(SortByEntryDesc(g), EntryIs(t)) == Filter(g, EntryIs(t))
  {
    if |g| > 0 {
      var p := EntryIs(t);
      var rest := SortByEntryDesc(g[1..]);
      assert SortByEntryDesc(g) == InsertByEntryDesc(g[0], rest);
      SortIsStable(g[1..], t);
      InsertIsStable(g[0], rest, t);
      FilterCons(g[0], rest, p);
      FilterCons(g[0], g[1..], p);
      assert g == [g[0]] + g[1..];
    }
  }

  /** Reference definition of the record a group keeps: the position of the first record
      with the greatest `entryTime`. */
  function FirstMaxIndex(g: seq<Scan>): (i: nat)
    requires |g| > 0
    ensures i < |g|
    ensures forall j :: 0 <= j < |g| ==> g[j].entryTime <= g[i].entryTime
    ensures forall j :: 0 <= j < i ==> g[j].entryTime < g[i].entryTime
  {
    if |g| == 1 then 0
    else
      var i' := FirstMaxIndex(g[1..]);
      if g[1..][i'].entryTime > g[0].entryTime then i' + 1 else 0
  }

  function FirstMax(g: seq<Scan>): Scan
    requires |g| > 0
  {
    g[FirstMaxIndex(g)]
  }

  /** The stable newest-first sort puts the first newest record at the front. */
  lemma {:induction false} SortHeadIsFirstMax(g: seq<Scan>)
    requires |g| > 0
    ensures SortByEntryDesc(g)[0] == FirstMax(g)
  {
    if |g| > 1 {
      SortHeadIsFirstMax(g[1..]);
      assert g[FirstMaxIndex(g)] == (if FirstMaxIndex(g) == 0 then g[0] else g[1..][FirstMaxIndex(g) - 1]);
    }
  }

  /** How one tag's group of active records is resolved: the record kept active and the
      records discarded (`[mostRecent, ...duplicates]`). A group of one keeps its record
      without sorting. */
  function ResolveGroup(group: seq<Scan>): (Scan, seq<Scan>)
    requires |group| > 0
  {
    if |group| == 1 then (group[0], [])
    else
      var sorted := SortByEntryDesc(group);
      (sorted[0], sorted[1..])
  }

  /** A group keeps its first newest record and discards exactly the others. */
  lemma GroupKeepsFirstMax(group: seq<Scan>)
    requires |group| > 0
    ensures ResolveGroup(group).0 == FirstMax(group)
    ensures multiset(ResolveGroup(group).1) + multiset{ResolveGroup(group).0} == multiset(group)
  {
    if |group| > 1 {
      var sorted := SortByEntryDesc(group);
      SortHeadIsFirstMax(group);
      assert sorted == [sorted[0]] + sorted[1..];
    }
  }

  /** The active records split into those the groups discard (`duplicates`, still open) and
      those they keep (`validActiveScans`), both in the source's push order. */
  datatype Resolution = Resolution(losers: seq<Scan>, kept: seq<Scan>)

  /** Groups `actives` by tag in order of each tag's first appearance (the insertion order of
      the `Map`) and resolves each group in that order. */
  function Resolve(actives: seq<Scan>): Resolution
    decreases |actives|
  {
    if |actives| == 0 then Resolution([], [])
    else
      var t := actives[0].tagId;
      var group := Filter(actives, TagIs(t));
      FilterSplit(actives, TagIs(t));
      assert actives[0] in group;
      var rest := Resolve(Reject(actives, TagIs(t)));
      var (head, losers) := ResolveGroup(group);
      Resolution(losers + rest.losers, [head] + rest.kept)
  }

  /** Unfolds one step of `Resolve`. */
  lemma ResolveUnfold(actives: seq<Scan>)
    requires |actives| > 0
    ensures var t := actives[0].tagId;
      var group := Filter(actives, TagIs(t));
      var others := Reject(actives, TagIs(t));
      var rest := Resolve(others);
      && |group| > 0
      && Resolve(actives) == Resolution(ResolveGroup(group).1 + rest.losers, [ResolveGroup(group).0] + rest.kept)
      && (forall x :: x in others ==> x.tagId != t)
  {
    assert actives[0] in Filter(actives, TagIs(actives[0].tagId));
  }

  /** The first group's kept record, its discarded records, and the rest of the records. */
  lemma FirstGroup(actives: seq<Scan>)
    requires |actives| > 0
    ensures var t := actives[0].tagId;
      var group := Filter(actives, TagIs(t));
      var others := Reject(actives, TagIs(t));
      && |group| > 0
      && ResolveGroup(group).0 == FirstMax(group)
      && ResolveGroup(group).0.tagId == t
      && multiset(ResolveGroup(group).1) + multiset{ResolveGroup(group).0} == multiset(group)
      && multiset(group) + multiset(others) == multiset(actives)
  {
    var t := actives[0].tagId;
    var group := Filter(actives, TagIs(t));
    FilterSplit(actives, TagIs(t));
    assert actives[0] in group;
    GroupKeepsFirstMax(group);
    var head := ResolveGroup(group).0;
    assert head in multiset(group);
    assert head in group;
    assert TagIs(t)(head);
  }

  /** Resolution discards or keeps every active record exactly once. */
  lemma {:induction false} ResolvePermutes(actives: seq<Scan>)
    ensures multiset(Resolve(actives).losers) + multiset(Resolve(actives).kept) == multiset(actives)
    decreases |actives|
  {
    if |actives| > 0 {
      ResolveUnfold(actives);
      FirstGroup(actives);
      ResolvePermutes(Reject(actives, TagIs(actives[0].tagId)));
    }
  }

  /** Putting a record in front of records of other tags keeps one record per tag. */
  lemma OnePerTagCons(head: Scan, kept: seq<Scan>, u: Option<string>)
    requires forall x :: x in kept ==> x.tagId != head.tagId
    requires |Filter(kept, TagIs(u))| <= 1
    ensures |Filter([head] + kept, TagIs(u))| <= 1
  {
    FilterConcat([head], kept, TagIs(u));
    if u == head.tagId {
      FilterNone(kept, TagIs(u));
    }
  }

  /** The kept records belong to pairwise different tags. */
  lemma {:induction false} ResolveKeepsOnePerTag(actives: seq<Scan>, u: Option<string>)
    ensures |Filter(Resolve(actives).kept, TagIs(u))| <= 1
    decreases |actives|
  {
    if |actives| > 0 {
      var t := actives[0].tagId;
      var others := Reject(actives, TagIs(t));
      ResolveUnfold(actives);
      FirstGroup(actives);
      ResolveKeepsOnePerTag(others, u);
      ResolvePermutes(others);
      var rest := Resolve(others);
      var head := Resolve(actives).kept[0];
      forall x | x in rest.kept
        ensures x.tagId != head.tagId
      {
        assert x in multiset(others);
      }
      OnePerTagCons(head, rest.kept, u);
    }
  }

  /** Every kept record is the first newest record of its tag's group. */
  lemma {:induction false} ResolveKeptIsFirstMax(actives: seq<Scan>, k: Scan)
    requires k in Resolve(actives).kept
    ensures var g := Filter(actives, TagIs(k.tagId)); |g| > 0 && k == FirstMax(g)
    decreases |actives|
  {
    var t := actives[0].tagId;
    var others := Reject(actives, TagIs(t));
    ResolveUnfold(actives);
    FirstGroup(actives);
    if k != Resolve(actives).kept[0] {
      assert k in Resolve(others).kept;
      ResolveKeptIsFirstMax(others, k);
      var g' := Filter(others, TagIs(k.tagId));
      assert g'[0] in others;
      FilterOfReject(actives, TagIs(t), TagIs(k.tagId));
    }
  }

  /** Every tag with an active record keeps the first newest record of its group. */
  lemma {:induction false} ResolveKeepsTag(actives: seq<Scan>, a: Scan)
    requires a in actives
    ensures FirstMax(Filter(actives, TagIs(a.tagId))) in Resolve(actives).kept
    decreases |actives|
  {
    var t := actives[0].tagId;
    ResolveUnfold(actives);
    FirstGroup(actives);
    if a.tagId != t {
      var others := Reject(actives, TagIs(t));
      assert a in others;
      ResolveKeepsTag(others, a);
      FilterOfReject(actives, TagIs(t), TagIs(a.tagId));
    }
  }

  /** With at most one active record per tag, `Resolve` keeps every record and discards none. */
  lemma {:induction false} ResolveClean(actives: seq<Scan>)
    requires forall u :: |Filter(actives, TagIs(u))| <= 1
    ensures Resolve(actives) == Resolution([], actives)
    decreases |actives|
  {
    if |actives| > 0 {
      var t := actives[0].tagId;
      var group := Filter(actives, TagIs(t));
      assert actives == [actives[0]] + actives[1..];
      assert group == [actives[0]] + Filter(actives[1..], TagIs(t));
      assert |Filter(actives[1..], TagIs(t))| == 0;
      FilterNone(actives[1..], TagIs(t));
      assert group == [actives[0]];
      assert Reject(actives, TagIs(t)) == actives[1..];
      forall u
        ensures |Filter(actives[1..], TagIs(u))| <= 1
      {
        assert Filter(actives, TagIs(u))
          == (if TagIs(u)(actives[0]) then [actives[0]] else []) + Filter(actives[1..], TagIs(u));
      }
      ResolveClean(actives[1..]);
    }
  }

  /** Closes every record of `xs` at `now`. */
  function CloseAll(xs: seq<Scan>, now: int): seq<Scan> {
    Map(xs, CloseAt(now))
  }

  /** `enforceActiveSessionRule`: the closed records in input order, then the discarded active
      records closed at `now`, then one kept active record per tag. */
  function EnforceActiveSessionRule(scans: seq<Scan>, now: int): (r: seq<Scan>)
    ensures |r| == |scans|
  {
    var res := Resolve(Filter(scans, Active));
    FilterSplit(scans, Active);
    ResolvePermutes(Filter(scans, Active));
    assert |res.losers| + |res.kept| == |Filter(scans, Active)| by {
      assert |multiset(res.losers) + multiset(res.kept)| == |multiset(Filter(scans, Active))|;
    }
    Reject(scans, Active) + (CloseAll(res.losers, now) + res.kept)
  }

  /** Filtering the active records and then one tag selects the active records of that tag. */
  lemma {:induction false} ActiveGroup(scans: seq<Scan>, t: Option<string>)
    ensures Filter(Filter(scans, Active), TagIs(t)) == Filter(scans, ActiveWithTag(t))
  {
    if |scans| > 0 {
      ActiveGroup(scans[1..], t);
      var head := if Active(scans[0]) then [scans[0]] else [];
      assert Filter(scans, Active) == head + Filter(scans[1..], Active);
      FilterConcat(head, Filter(scans[1..], Active), TagIs(t));
    }
  }

  /** Both the kept and the discarded records are active records of the input. */
  lemma ResolvedAreActiveInputs(scans: seq<Scan>)
    ensures var res := Resolve(Filter(scans, Active));
      && (forall s :: s in res.kept ==> Active(s) && s in scans)
      && (forall s :: s in res.losers ==> Active(s) && s in scans)
  {
    var actives := Filter(scans, Active);
    var res := Resolve(actives);
    ResolvePermutes(actives);
    forall s | s in res.losers || s in res.kept
      ensures Active(s) && s in scans
    {
      assert s in multiset(actives);
    }
  }

  /** Closing active records at `now` changes exactly their `endTime`. */
  lemma ClosedAtNow(losers: seq<Scan>, now: int)
    requires forall s :: s in losers ==> Active(s)
    ensures forall s :: s in CloseAll(losers, now) ==>
      !Active(s) && s.endTime == Some(now) && s.(endTime := None) in losers
  {
    forall s | s in CloseAll(losers, now)
      ensures !Active(s) && s.endTime == Some(now) && s.(endTime := None) in losers
    {
      var i :| 0 <= i < |losers| && CloseAll(losers, now)[i] == s;
      assert s == losers[i].(endTime := Some(now));
      assert Active(losers[i]);
      assert s.(endTime := None) == losers[i];
    }
  }

  /** The closed, discarded and kept records together are the input, up to order. */
  lemma EnforcePartition(scans: seq<Scan>)
    ensures var res := Resolve(Filter(scans, Active));
      multiset(Reject(scans, Active)) + multiset(res.losers) + multiset(res.kept) == multiset(scans)
  {
    ResolvePermutes(Filter(scans, Active));
    FilterSplit(scans, Active);
  }

  /** Closing records keeps their ids. */
  lemma {:induction false} CloseAllKeepsIds(xs: seq<Scan>, now: int)
    ensures Ids(CloseAll(xs, now)) == Ids(xs)
  {
    assert |Ids(CloseAll(xs, now))| == |Ids(xs)|;
    forall i | 0 <= i < |xs|
      ensures Ids(CloseAll(xs, now))[i] == Ids(xs)[i]
    {
      assert CloseAll(xs, now)[i] == xs[i].(endTime := Some(now));
    }
  }

  /** Three parts that together are `scans` up to order, with the middle part closed, carry
      the ids of `scans`. */
  lemma PartsKeepIds(closed: seq<Scan>, losers: seq<Scan>, kept: seq<Scan>, scans: seq<Scan>, now: int)
    requires multiset(closed) + multiset(losers) + multiset(kept) == multiset(scans)
    ensures var r := closed + (CloseAll(losers, now) + kept);
      |r| == |scans| && multiset(Ids(r)) == multiset(Ids(scans))
  {
    var forced := CloseAll(losers, now);
    var all := closed + (losers + kept);
    assert multiset(all) == multiset(scans);
    assert |multiset(all)| == |multiset(scans)|;
    CloseAllKeepsIds(losers, now);
    MapConcat(closed, forced + kept, IdOf);
    MapConcat(forced, kept, IdOf);
    MapConcat(closed, losers + kept, IdOf);
    MapConcat(losers, kept, IdOf);
    MapPreservesMultiset(all, scans, IdOf);
  }

  /** The rule returns as many records as it receives, and every id as often as it came in:
      each record of the input appears once in the output. */
  lemma EnforceKeepsEveryRecord(scans: seq<Scan>, now: int)
    ensures var r := EnforceActiveSessionRule(scans, now);
      |r| == |scans| && multiset(Ids(r)) == multiset(Ids(scans))
  {
    EnforcePartition(scans);
    var res := Resolve(Filter(scans, Active));
    PartsKeepIds(Reject(scans, Active), res.losers, res.kept, scans, now);
  }

  /** Inactive records followed by active records of pairwise different tags hold at most
      one active record of any tag. */
  lemma PartsTagCount(closed: seq<Scan>, forced: seq<Scan>, kept: seq<Scan>, t: Option<string>)
    requires forall s :: s in closed ==> !Active(s)
    requires forall s :: s in forced ==> !Active(s)
    requires forall s :: s in kept ==> Active(s)
    requires |Filter(kept, TagIs(t))| <= 1
    ensures |Filter(closed + (forced + kept), ActiveWithTag(t))| <= 1
  {
    FilterConcat(closed, forced + kept, ActiveWithTag(t));
    FilterConcat(forced, kept, ActiveWithTag(t));
    FilterNone(closed, ActiveWithTag(t));
    FilterNone(forced, ActiveWithTag(t));
    FilterAgree(kept, ActiveWithTag(t), TagIs(t));
  }

  /** The kept records contribute the only active records of a tag. */
  lemma EnforceTagCount(scans: seq<Scan>, now: int, t: Option<string>)
    ensures |Filter(EnforceActiveSessionRule(scans, now), ActiveWithTag(t))| <= 1
  {
    var res := Resolve(Filter(scans, Active));
    ResolvedAreActiveInputs(scans);
    ClosedAtNow(res.losers, now);
    ResolveKeepsOnePerTag(Filter(scans, Active), t);
    PartsTagCount(Reject(scans, Active), CloseAll(res.losers, now), res.kept, t);
  }

  /** After the rule, every tag has at most one record without an exit time. */
  lemma EnforceSingleActivePerTag(scans: seq<Scan>, now: int)
    ensures SingleActivePerTag(EnforceActiveSessionRule(scans, now))
  {
    forall t
      ensures |Filter(EnforceActiveSessionRule(scans, now), ActiveWithTag(t))| <= 1
    {
      EnforceTagCount(scans, now, t);
    }
  }

  /** Closed records come first, unchanged and in input order. */
  lemma EnforceClosedFirst(scans: seq<Scan>, now: int)
    ensures Reject(scans, Active) <= EnforceActiveSessionRule(scans, now)
  {
    var res := Resolve(Filter(scans, Active));
    var closed := Reject(scans, Active);
    assert EnforceActiveSessionRule(scans, now) == closed + (CloseAll(res.losers, now) + res.kept);
  }

  /** The first newest record of a one-record group is that record. */
  lemma LoneFirstMax(g: seq<Scan>)
    requires |g| == 1
    ensures FirstMax(g) == g[0]
  {
  }

  /** A tag with exactly one active record is resolved to that record. */
  lemma LoneActiveKept(actives: seq<Scan>, a: Scan)
    requires a in actives && |Filter(actives, TagIs(a.tagId))| == 1
    ensures a in Resolve(actives).kept
  {
    var g := Filter(actives, TagIs(a.tagId));
    ResolveKeepsTag(actives, a);
    assert a in g;
    LoneFirstMax(g);
  }

  /** The kept records are part of the rule's output. */
  lemma KeptInOutput(scans: seq<Scan>, now: int)
    ensures forall k :: k in Resolve(Filter(scans, Active)).kept ==> k in EnforceActiveSessionRule(scans, now)
  {
  }

  /** A tag with exactly one active record keeps that record untouched. */
  lemma EnforceKeepsLoneActive(scans: seq<Scan>, now: int, a: Scan)
    requires a in scans && Active(a) && |Filter(scans, ActiveWithTag(a.tagId))| == 1
    ensures a in EnforceActiveSessionRule(scans, now)
  {
    ActiveGroup(scans, a.tagId);
    LoneActiveKept(Filter(scans, Active), a);
    KeptInOutput(scans, now);
  }

  /** Every record left active is an input record that is the newest active record of its
      tag, the first one in input order on equal `entryTime`. */
  lemma EnforceKeepsNewest(scans: seq<Scan>, now: int, s: Scan)
    requires s in EnforceActiveSessionRule(scans, now) && Active(s)
    ensures var g := Filter(scans, ActiveWithTag(s.tagId));
      s in scans && |g| > 0 && s == FirstMax(g)
  {
    var res := Resolve(Filter(scans, Active));
    ResolvedAreActiveInputs(scans);
    ClosedAtNow(res.losers, now);
    assert s in res.kept;
    ResolveKeptIsFirstMax(Filter(scans, Active), s);
    ActiveGroup(scans, s.tagId);
  }

  /** Every tag that had an active record still has its newest one active afterwards. */
  lemma EnforceKeepsEveryTag(scans: seq<Scan>, now: int, a: Scan)
    requires a in scans && Active(a)
    ensures var g := Filter(scans, ActiveWithTag(a.tagId));
      |g| > 0 && FirstMax(g) in EnforceActiveSessionRule(scans, now) && Active(FirstMax(g))
  {
    var actives := Filter(scans, Active);
    var g := Filter(scans, ActiveWithTag(a.tagId));
    assert a in actives;
    ResolveKeepsTag(actives, a);
    ActiveGroup(scans, a.tagId);
    assert a in g;
    assert FirstMax(g) in g;
    KeptInOutput(scans, now);
  }

  /** The records after the closed inputs: the forced-closed ones, then the kept ones. */
  lemma AfterClosed(scans: seq<Scan>, now: int)
    ensures var res := Resolve(Filter(scans, Active));
      EnforceActiveSessionRule(scans, now)[|Reject(scans, Active)|..] == CloseAll(res.losers, now) + res.kept
  {
    var res := Resolve(Filter(scans, Active));
    var closed := Reject(scans, Active);
    var rest := CloseAll(res.losers, now) + res.kept;
    assert EnforceActiveSessionRule(scans, now) == closed + rest;
    DropPrefix(closed, rest);
  }

  /** A record the rule closes differs from an active input record only in `endTime`, which is
      the single `now` of the call: every record after the closed inputs that is not active is
      such a record. */
  lemma EnforceClosesAtNow(scans: seq<Scan>, now: int)
    ensures var r := EnforceActiveSessionRule(scans, now);
      forall s :: s in r[|Reject(scans, Active)|..] && !Active(s) ==>
        s.endTime == Some(now) && s.(endTime := None) in scans
  {
    var res := Resolve(Filter(scans, Active));
    ResolvedAreActiveInputs(scans);
    ClosedAtNow(res.losers, now);
    AfterClosed(scans, now);
  }

  /** One active record per tag means one record per tag among the active records. */
  lemma CleanGroups(scans: seq<Scan>)
    requires SingleActivePerTag(scans)
    ensures forall u :: |Filter(Filter(scans, Active), TagIs(u))| <= 1
  {
    forall u
      ensures |Filter(Filter(scans, Active), TagIs(u))| <= 1
    {
      ActiveGroup(scans, u);
      assert |Filter(scans, ActiveWithTag(u))| <= 1;
    }
  }

  /** On an input that already has at most one active record per tag, the rule only reorders:
      closed records first, then the active ones, no field changed. */
  lemma EnforceFixesCleanInput(scans: seq<Scan>, now: int)
    requires SingleActivePerTag(scans)
    ensures EnforceActiveSessionRule(scans, now) == Reject(scans, Active) + Filter(scans, Active)
  {
    CleanGroups(scans);
    ResolveClean(Filter(scans, Active));
    assert CloseAll([], now) == [];
  }

  /** On such an input the rule returns the very records it received. */
  lemma EnforceCleanPermutes(scans: seq<Scan>, now: int)
    requires SingleActivePerTag(scans)
    ensures multiset(EnforceActiveSessionRule(scans, now)) == multiset(scans)
  {
    EnforceFixesCleanInput(scans, now);
    FilterSplit(scans, Active);
  }

  /** A list made of inactive records followed by active ones splits back into those parts. */
  lemma SplitByActivity(closed: seq<Scan>, forced: seq<Scan>, kept: seq<Scan>)
    requires forall s :: s in closed ==> !Active(s)
    requires forall s :: s in forced ==> !Active(s)
    requires forall s :: s in kept ==> Active(s)
    ensures Reject(closed + (forced + kept), Active) == closed + forced
    ensures Filter(closed + (forced + kept), Active) == kept
  {
    RejectByActivity(closed, forced, kept);
    FilterByActivity(closed, forced, kept);
  }

  lemma FilterByActivity(closed: seq<Scan>, forced: seq<Scan>, kept: seq<Scan>)
    requires forall s :: s in closed ==> !Active(s)
    requires forall s :: s in forced ==> !Active(s)
    requires forall s :: s in kept ==> Active(s)
    ensures Filter(closed + (forced + kept), Active) == kept
  {
    FilterConcat(closed, forced + kept, Active);
    FilterConcat(forced, kept, Active);
    FilterNone(closed, Active);
    FilterNone(forced, Active);
    FilterAll(kept, Active);
    assert Filter(forced + kept, Active) == [] + kept;
    assert Filter(closed + (forced + kept), Active) == [] + ([] + kept);
  }

  lemma RejectByActivity(closed: seq<Scan>, forced: seq<Scan>, kept: seq<Scan>)
    requires forall s :: s in closed ==> !Active(s)
    requires forall s :: s in forced ==> !Active(s)
    requires forall s :: s in kept ==> Active(s)
    ensures Reject(closed + (forced + kept), Active) == closed + forced
  {
    RejectConcat(closed, forced + kept, Active);
    RejectConcat(forced, kept, Active);
    FilterNone(closed, Active);
    FilterNone(forced, Active);
    FilterAll(kept, Active);
  }

  /** A list already split as the rule splits it, with one active record per tag, is a fixed
      point of the rule. */
  lemma SplitIsFixedPoint(closed: seq<Scan>, forced: seq<Scan>, kept: seq<Scan>, later: int)
    requires forall s :: s in closed ==> !Active(s)
    requires forall s :: s in forced ==> !Active(s)
    requires forall s :: s in kept ==> Active(s)
    requires SingleActivePerTag(closed + (forced + kept))
    ensures EnforceActiveSessionRule(closed + (forced + kept), later) == closed + (forced + kept)
  {
    var r := closed + (forced + kept);
    EnforceFixesCleanInput(r, later);
    SplitByActivity(closed, forced, kept);
    ConcatAssoc(closed, forced, kept);
  }

  /** Applying the rule twice is applying it once, whatever the two clocks say. */
  lemma EnforceIdempotent(scans: seq<Scan>, now: int, later: int)
    ensures EnforceActiveSessionRule(EnforceActiveSessionRule(scans, now), later)
         == EnforceActiveSessionRule(scans, now)
  {
    var res := Resolve(Filter(scans, Active));
    EnforceSingleActivePerTag(scans, now);
    ResolvedAreActiveInputs(scans);
    ClosedAtNow(res.losers, now);
    SplitIsFixedPoint(Reject(scans, Active), CloseAll(res.losers, now), res.kept, later);
  }

  /** Records that carry no tag all fall into one group: if no input record has a tag, at most
      one record of the whole output is active. Server records have no tag field, so this is
      what happens to every list the server returns. */
  lemma UntaggedKeepOneActive(scans: seq<Scan>, now: int)
    requires forall s :: s in scans ==> s.tagId.None?
    ensures |Filter(EnforceActiveSessionRule(scans, now), Active)| <= 1
  {
    var r := EnforceActiveSessionRule(scans, now);
    var res := Resolve(Filter(scans, Active));
    EnforceTagCount(scans, now, None);
    ResolvedAreActiveInputs(scans);
    ClosedAtNow(res.losers, now);
    forall s | s in r
      ensures s.tagId.None?
    {
      if s in CloseAll(res.losers, now) {
        assert s.(endTime := None) in scans;
      }
    }
    FilterAgree(r, Active, ActiveWithTag(None));
  }
}
