/** The server's scan list (src/app/api/scans/route.ts): a JSON file holding every visit,
    and the GET, POST, PATCH and DELETE handlers that read and rewrite it. The file system is
    a value of `FileContent`; handlers return the response and the file afterwards. */
module ScansRoute {
  import opened Wrappers
  import opened Scans
  import opened Seqs

  /** What reading `scans.json` can yield. */
  datatype FileContent =
    | NoFile
    | Unreadable
    | NotJson
    | NonArray
    | JsonArray(scans: seq<Scan>)

  /** `readScans`: the stored list; a missing or unreadable file, bad JSON or JSON that is not
      an array all read as the empty list. */
  function ReadScans(f: FileContent): (r: seq<Scan>)
    ensures !f.JsonArray? ==> r == []
    ensures f.JsonArray? ==> r == f.scans
  {
    match f
    case JsonArray(scans) => scans
    case _ => []
  }

  /** `writeScans`. */
  function WriteScans(scans: seq<Scan>): FileContent {
    JsonArray(scans)
  }

  /** A written list is read back as written. */
  lemma WriteThenRead(scans: seq<Scan>)
    ensures ReadScans(WriteScans(scans)) == scans
  {
  }

  datatype Body =
    | ScanBody(scan: Scan)
    | ScanList(scans: seq<Scan>)
    | ErrorBody(error: string)
    | ActiveExists(error: string, active: Scan)
    | Cleared(message: string)

  datatype Response = Response(status: int, body: Body)

  /** A handler's response and the file it leaves behind. */
  datatype Handled = Handled(response: Response, file: FileContent)

  /** JavaScript truthiness of an optional string: present and not empty. */
  predicate Truthy(s: Option<string>) {
    s.Some? && s.value != ""
  }

  /** Some record with this id has no exit time. */
  predicate HasActiveId(scans: seq<Scan>, id: string) {
    exists i :: 0 <= i < |scans| && ActiveWithId(id)(scans[i])
  }

  /** The route's invariant: at most one record per id without an exit time. */
  ghost predicate SingleActivePerId(scans: seq<Scan>) {
    forall id :: |Filter(scans, ActiveWithId(id))| <= 1
  }

  /** `GET`: with a non-empty `id` query, the first record with that id and no exit time, or
      404; otherwise the whole list. */
  function Get(file: FileContent, id: Option<string>): (r: Response)
    ensures !Truthy(id) ==> r == Response(200, ScanList(ReadScans(file)))
    ensures Truthy(id) ==> (r.status == 200 <==> HasActiveId(ReadScans(file), id.value))
    ensures Truthy(id) && r.status == 200 ==>
      exists i :: 0 <= i < |ReadScans(file)| && r.body == ScanBody(ReadScans(file)[i])
        && ActiveWithId(id.value)(ReadScans(file)[i])
        && forall j :: 0 <= j < i ==> !ActiveWithId(id.value)(ReadScans(file)[j])
    ensures Truthy(id) && r.status != 200 ==> r == Response(404, ErrorBody("Active scan not found"))
  {
    var scans := ReadScans(file);
    if Truthy(id) then
      match FindIndex(scans, ActiveWithId(id.value))
      case Some(i) => Response(200, ScanBody(scans[i]))
      case None => Response(404, ErrorBody("Active scan not found"))
    else Response(200, ScanList(scans))
  }

  /** The `ScanRequest` body of a POST; a field the client left out is `None`. */
  datatype ScanRequest = ScanRequest(
    id: Option<string>,
    guestType: Option<string>,
    adults: Option<int>,
    children: Option<int>)

  /** The request names a visitor: a non-empty id and type, and both counts present (a
      count of 0 is present). */
  predicate Complete(req: ScanRequest) {
    Truthy(req.id) && Truthy(req.guestType) && req.adults.Some? && req.children.Some?
  }

  /** `POST`: refuses an incomplete request and a visitor who is still inside; otherwise
      appends a new open visit entered at `now`. */
  function Post(file: FileContent, req: ScanRequest, now: int): (h: Handled)
    ensures h.response.status == 201 <==> Complete(req) && !HasActiveId(ReadScans(file), req.id.value)
    ensures h.response.status != 201 ==> h.response.status == 400 && h.file == file
    ensures !Complete(req) ==>
      h.response.body == ErrorBody("Missing required fields: id, type, adults, children")
    ensures Complete(req) && HasActiveId(ReadScans(file), req.id.value) ==>
      var scans := ReadScans(file);
      exists i :: && 0 <= i < |scans|
                  && ActiveWithId(req.id.value)(scans[i])
                  && (forall j :: 0 <= j < i ==> !ActiveWithId(req.id.value)(scans[j]))
                  && h.response.body == ActiveExists("Active scan already exists for this ID", scans[i])
    ensures h.response.status == 201 ==>
      exists s :: && h.response.body == ScanBody(s)
                  && ReadScans(h.file) == ReadScans(file) + [s]
                  && s == Scan(req.id.value, None, req.guestType.value, req.adults.value,
                               req.children.value, now, None)
  {
    if !Complete(req) then
      Handled(Response(400, ErrorBody("Missing required fields: id, type, adults, children")), file)
    else
      var scans := ReadScans(file);
      match FindIndex(scans, ActiveWithId(req.id.value))
      case Some(i) =>
        Handled(Response(400, ActiveExists("Active scan already exists for this ID", scans[i])), file)
      case None =>
        var s := Scan(req.id.value, None, req.guestType.value, req.adults.value, req.children.value, now, None);
        Handled(Response(201, ScanBody(s)), WriteScans(scans + [s]))
  }

  /** A refused POST for a visitor still inside reports that visitor's first open record. */
  lemma PostReportsActive(file: FileContent, req: ScanRequest, now: int)
    requires Complete(req) && HasActiveId(ReadScans(file), req.id.value)
    ensures var h := Post(file, req, now);
      && h.response.status == 400
      && h.response.body.ActiveExists?
      && h.response.body.active in ReadScans(file)
      && ActiveWithId(req.id.value)(h.response.body.active)
      && h.response.body.active == ReadScans(file)[FindIndex(ReadScans(file), ActiveWithId(req.id.value)).value]
  {
  }

  /** POST keeps at most one open record per id. */
  lemma PostKeepsSingleActive(file: FileContent, req: ScanRequest, now: int)
    requires SingleActivePerId(ReadScans(file))
    ensures SingleActivePerId(ReadScans(Post(file, req, now).file))
  {
    var h := Post(file, req, now);
    if h.response.status == 201 {
      var scans := ReadScans(file);
      var s := Scan(req.id.value, None, req.guestType.value, req.adults.value, req.children.value, now, None);
      assert ReadScans(h.file) == scans + [s];
      forall u
        ensures |Filter(scans + [s], ActiveWithId(u))| <= 1
      {
        FilterConcat(scans, [s], ActiveWithId(u));
        if u == s.id {
          FilterNone(scans, ActiveWithId(u));
        }
      }
    }
  }

  /** The `CheckoutRequest` body of a PATCH. */
  datatype CheckoutRequest = CheckoutRequest(id: Option<string>)

  /** `PATCH`: closes the first open record with the id at `now`. */
  function Patch(file: FileContent, req: CheckoutRequest, now: int): (h: Handled)
    ensures h.response.status == 200 <==> Truthy(req.id) && HasActiveId(ReadScans(file), req.id.value)
    ensures h.response.status != 200 ==> h.file == file
    ensures !Truthy(req.id) ==> h.response == Response(400, ErrorBody("Missing required field: id"))
    ensures Truthy(req.id) && h.response.status != 200 ==>
      h.response == Response(404, ErrorBody("No active scan found for this ID"))
    ensures h.response.status == 200 ==>
      var scans := ReadScans(file);
      exists i :: && 0 <= i < |scans|
                  && ActiveWithId(req.id.value)(scans[i])
                  && (forall j :: 0 <= j < i ==> !ActiveWithId(req.id.value)(scans[j]))
                  && ReadScans(h.file) == scans[i := scans[i].(endTime := Some(now))]
                  && h.response.body == ScanBody(scans[i].(endTime := Some(now)))
  {
    if !Truthy(req.id) then
      Handled(Response(400, ErrorBody("Missing required field: id")), file)
    else
      var scans := ReadScans(file);
      match FindIndex(scans, ActiveWithId(req.id.value))
      case None =>
        Handled(Response(404, ErrorBody("No active scan found for this ID")), file)
      case Some(i) =>
        var closed := scans[i].(endTime := Some(now));
        Handled(Response(200, ScanBody(closed)), WriteScans(scans[i := closed]))
  }

  /** PATCH keeps at most one open record per id, and when that held before it leaves the
      visitor with no open record at all. */
  lemma PatchKeepsSingleActive(file: FileContent, req: CheckoutRequest, now: int)
    requires SingleActivePerId(ReadScans(file))
    ensures var after := ReadScans(Patch(file, req, now).file);
      && SingleActivePerId(after)
      && (Truthy(req.id) ==> !HasActiveId(after, req.id.value))
  {
    var scans := ReadScans(file);
    var h := Patch(file, req, now);
    if h.response.status == 200 {
      var id := req.id.value;
      var i := FindIndex(scans, ActiveWithId(id)).value;
      var closed := scans[i].(endTime := Some(now));
      assert ReadScans(h.file) == scans[i := closed];
      forall u
        ensures |Filter(scans[i := closed], ActiveWithId(u))| <= 1
      {
        FilterUpdate(scans, i, closed, ActiveWithId(u));
      }
      FilterUpdate(scans, i, closed, ActiveWithId(id));
      assert |Filter(scans[i := closed], ActiveWithId(id))| == 0;
    } else if Truthy(req.id) {
      var id := req.id.value;
      assert !HasActiveId(scans, id);
    }
  }

  /** `DELETE`: the file is rewritten as the empty list. */
  function Delete(file: FileContent): (h: Handled)
    ensures ReadScans(h.file) == [] && h.file.JsonArray?
    ensures h.response.status == 200
  {
    Handled(Response(200, Cleared("All scans cleared")), WriteScans([]))
  }
}
