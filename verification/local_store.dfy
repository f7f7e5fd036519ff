/** The browser-local list of visitor entries (src/lib/localStore.ts), kept as one JSON
    array under a fixed storage key. */
module LocalStore {
  import opened Wrappers
  import opened Seqs

  /** `LocalGuest`. Times are the stored ISO strings; an optional field that is absent is
      `None`. */
  datatype LocalGuest = LocalGuest(
    id: string,
    entryTime: string,
    guestType: string,
    adults: int,
    children: int,
    endTime: Option<string>,
    duration: Option<int>)

  /** `!e.endTime`: no exit time, or an empty one. */
  predicate Open(e: LocalGuest) {
    e.endTime.None? || e.endTime.value == ""
  }

  /** Selects the open entries with id `id`. */
  function OpenWithId(id: string): LocalGuest -> bool {
    (e: LocalGuest) => e.id == id && Open(e)
  }

  /** At most one open entry per id. */
  ghost predicate SingleOpenPerId(entries: seq<LocalGuest>) {
    forall id :: |Filter(entries, OpenWithId(id))| <= 1
  }

  /** The one storage slot the list lives in (key `gastmeting.local.entries.v1`) as the page
      sees it: no `window` (server rendering), no
      item or an empty one, text that is not JSON, JSON that is not an array, or a list. */
  datatype Storage =
    | NoWindow
    | Missing
    | Unparsable
    | NonArray
    | Entries(entries: seq<LocalGuest>)

  /** `getLocalEntries`: the stored list, or the empty list whenever there is none. */
  function GetLocalEntries(st: Storage): (r: seq<LocalGuest>)
    ensures !st.Entries? ==> r == []
    ensures st.Entries? ==> r == st.entries
  {
    match st
    case Entries(entries) => entries
    case _ => []
  }

  /** `setLocalEntries`: stores the list, except without a `window`. */
  function SetLocalEntries(st: Storage, entries: seq<LocalGuest>): (r: Storage)
    ensures st.NoWindow? <==> r.NoWindow?
  {
    if st.NoWindow? then NoWindow else Entries(entries)
  }

  /** A stored list is read back as stored. */
  lemma SetThenGet(st: Storage, entries: seq<LocalGuest>)
    requires !st.NoWindow?
    ensures GetLocalEntries(SetLocalEntries(st, entries)) == entries
  {
  }

  /** `{ ...prev, ...entry }`: every field the entry carries replaces the old one. */
  function Merge(prev: LocalGuest, entry: LocalGuest): (r: LocalGuest)
    ensures r.id == entry.id && r.entryTime == entry.entryTime && r.guestType == entry.guestType
    ensures r.adults == entry.adults && r.children == entry.children
    ensures r.endTime == (if entry.endTime.Some? then entry.endTime else prev.endTime)
    ensures r.duration == (if entry.duration.Some? then entry.duration else prev.duration)
  {
    LocalGuest(
      entry.id, entry.entryTime, entry.guestType, entry.adults, entry.children,
      if entry.endTime.Some? then entry.endTime else prev.endTime,
      if entry.duration.Some? then entry.duration else prev.duration)
  }

  /** The list-level step of `upsertLocalEntry`: merge into the first open entry with the
      same id, or append when there is none. */
  function Upsert(all: seq<LocalGuest>, entry: LocalGuest): (r: seq<LocalGuest>)
    ensures (forall j :: 0 <= j < |all| ==> !OpenWithId(entry.id)(all[j])) ==> r == all + [entry]
    ensures (exists j :: 0 <= j < |all| && OpenWithId(entry.id)(all[j])) ==>
      && |r| == |all|
      && exists i :: && 0 <= i < |all|
                     && OpenWithId(entry.id)(all[i])
                     && (forall j :: 0 <= j < i ==> !OpenWithId(entry.id)(all[j]))
                     && r == all[i := Merge(all[i], entry)]
  {
    match FindIndex(all, OpenWithId(entry.id))
    case Some(i) => all[i := Merge(all[i], entry)]
    case None => all + [entry]
  }

  /** Upserting keeps at most one open entry per id. */
  lemma UpsertKeepsSingleOpen(all: seq<LocalGuest>, entry: LocalGuest)
    requires SingleOpenPerId(all)
    ensures SingleOpenPerId(Upsert(all, entry))
  {
    match FindIndex(all, OpenWithId(entry.id))
    case Some(i) =>
      forall u
        ensures |Filter(all[i := Merge(all[i], entry)], OpenWithId(u))| <= 1
      {
        FilterUpdate(all, i, Merge(all[i], entry), OpenWithId(u));
      }
    case None =>
      forall u
        ensures |Filter(all + [entry], OpenWithId(u))| <= 1
      {
        FilterConcat(all, [entry], OpenWithId(u));
        if u == entry.id {
          FilterNone(all, OpenWithId(u));
        }
      }
  }

  /** The list-level step of `markLocalCheckout`: the first open entry with the id gets the
      exit time and the duration (absent if not given); nothing else changes. */
  function Checkout(all: seq<LocalGuest>, id: string, endTime: string, duration: Option<int>): (r: seq<LocalGuest>)
    ensures |r| == |all|
    ensures (forall j :: 0 <= j < |all| ==> !OpenWithId(id)(all[j])) ==> r == all
    ensures (exists j :: 0 <= j < |all| && OpenWithId(id)(all[j])) ==>
      exists i :: && 0 <= i < |all|
                  && OpenWithId(id)(all[i])
                  && (forall j :: 0 <= j < i ==> !OpenWithId(id)(all[j]))
                  && r == all[i := all[i].(endTime := Some(endTime), duration := duration)]
  {
    match FindIndex(all, OpenWithId(id))
    case Some(i) => all[i := all[i].(endTime := Some(endTime), duration := duration)]
    case None => all
  }

  /** `hasActiveLocal` on a list: some entry has the id and is open. */
  function HasActive(all: seq<LocalGuest>, id: string): (b: bool)
    ensures b <==> exists i :: 0 <= i < |all| && all[i].id == id && Open(all[i])
  {
    FindIndex(all, OpenWithId(id)).Some?
  }

  /** Checking out with a non-empty exit time, when at most one entry of the visitor was
      open, leaves the visitor with no open entry. */
  lemma CheckoutCloses(all: seq<LocalGuest>, id: string, endTime: string, duration: Option<int>)
    requires |Filter(all, OpenWithId(id))| <= 1
    requires endTime != ""
    ensures !HasActive(Checkout(all, id, endTime, duration), id)
  {
    var r := Checkout(all, id, endTime, duration);
    match FindIndex(all, OpenWithId(id))
    case Some(i) =>
      FilterUpdate(all, i, all[i].(endTime := Some(endTime), duration := duration), OpenWithId(id));
      assert |Filter(r, OpenWithId(id))| == 0;
    case None =>
  }

  /** Upserting an open entry leaves an open entry with its id. */
  lemma UpsertOpenStaysOpen(all: seq<LocalGuest>, entry: LocalGuest)
    ensures Open(entry) ==> HasActive(Upsert(all, entry), entry.id)
  {
    if Open(entry) {
      var r := Upsert(all, entry);
      match FindIndex(all, OpenWithId(entry.id))
      case Some(i) =>
        assert r[i] == Merge(all[i], entry) && Open(r[i]);
      case None =>
        assert r[|all|] == entry;
    }
  }

  /** `upsertLocalEntry`: with a window, the stored list grows by one exactly when the visitor
      had no open entry, and an open entry leaves the visitor inside. */
  function UpsertLocalEntry(st: Storage, entry: LocalGuest): (r: Storage)
    ensures st.NoWindow? ==> r.NoWindow?
    ensures !st.NoWindow? ==>
      |GetLocalEntries(r)| == |GetLocalEntries(st)| + (if HasActiveLocal(st, entry.id) then 0 else 1)
    ensures !st.NoWindow? && Open(entry) ==> HasActiveLocal(r, entry.id)
  {
    UpsertOpenStaysOpen(GetLocalEntries(st), entry);
    SetLocalEntries(st, Upsert(GetLocalEntries(st), entry))
  }

  /** `markLocalCheckout`: with a window, the stored list keeps its length, and it is
      unchanged when the visitor had no open entry. */
  function MarkLocalCheckout(st: Storage, id: string, endTime: string, duration: Option<int>): (r: Storage)
    ensures st.NoWindow? ==> r.NoWindow?
    ensures !st.NoWindow? ==> |GetLocalEntries(r)| == |GetLocalEntries(st)|
    ensures !st.NoWindow? && !HasActiveLocal(st, id) ==> GetLocalEntries(r) == GetLocalEntries(st)
  {
    SetLocalEntries(st, Checkout(GetLocalEntries(st), id, endTime, duration))
  }

  /** `hasActiveLocal`: only a stored list can hold an open entry. */
  function HasActiveLocal(st: Storage, id: string): (b: bool)
    ensures b ==> st.Entries?
    ensures st.Entries? ==>
      (b <==> exists i :: 0 <= i < |st.entries| && st.entries[i].id == id && Open(st.entries[i]))
  {
    HasActive(GetLocalEntries(st), id)
  }

  /** Checking a visitor out in storage that held at most one open entry for them makes
      `hasActiveLocal` false. */
  lemma StoredCheckoutCloses(st: Storage, id: string, endTime: string, duration: Option<int>)
    requires |Filter(GetLocalEntries(st), OpenWithId(id))| <= 1
    requires endTime != ""
    ensures !HasActiveLocal(MarkLocalCheckout(st, id, endTime, duration), id)
  {
    CheckoutCloses(GetLocalEntries(st), id, endTime, duration);
  }
}
