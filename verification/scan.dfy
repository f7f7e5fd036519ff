/** The visit record shared by the client cache, the sync queue and the server route
    (src/types/scan.ts). */
module Scans {
  import opened Wrappers
  import Seqs

  /** One visit. Timestamps are integers (milliseconds since the epoch) in place of ISO-8601
      strings; `endTime == None` is the `null` exit time of a visit still in progress.
      `tagId` is the wristband field the client cache groups on; it is not part of the
      declared record type, so it is `None` whenever a record does not carry it, which is
      the case for every record the server creates. `guestType` is the `type` string: the
      declared values are 'hotelgast', 'daggast' and 'zwembadgast', but nothing checks a
      received record against them. */
  datatype Scan = Scan(
    id: string,
    tagId: Option<string>,
    guestType: string,
    adults: int,
    children: int,
    entryTime: int,
    endTime: Option<int>)

  /** A visit without an exit time (`!scan.endTime`). */
  predicate Active(s: Scan) {
    s.endTime.None?
  }

  function IdOf(s: Scan): string {
    s.id
  }

  /** The ids of a list of records, in order. */
  function Ids(scans: seq<Scan>): seq<string> {
    Seqs.Map(scans, IdOf)
  }

  /** The record closed at `now` (`{ ...s, endTime: now }`). */
  function CloseAt(now: int): Scan -> Scan {
    (s: Scan) => s.(endTime := Some(now))
  }

  /** Selects the records grouped under tag `t`. */
  function TagIs(t: Option<string>): Scan -> bool {
    (s: Scan) => s.tagId == t
  }

  /** Selects the active records grouped under tag `t`. */
  function ActiveWithTag(t: Option<string>): Scan -> bool {
    (s: Scan) => Active(s) && s.tagId == t
  }

  /** Selects the active records with id `id`: the records the server route and the local
      entry list look up with `s.id === id && !s.endTime`. */
  function ActiveWithId(id: string): Scan -> bool {
    (s: Scan) => s.id == id && Active(s)
  }

  /** The session rule of the client cache: for every tag, at most one record has no exit
      time. */
  ghost predicate SingleActivePerTag(scans: seq<Scan>) {
    forall t :: |Seqs.Filter(scans, ActiveWithTag(t))| <= 1
  }
}
