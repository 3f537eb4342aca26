/** The four bookmark routes of src/app.js behind the bearer-token gate,
    each a pure function from the current collection (and the request) to
    the response, the next collection and the log line it writes. */
module App {
  import opened Wrappers
  import opened Values
  import opened Auth
  import opened Store
  import opened Validation

  const OK: nat := 200
  const CREATED: nat := 201
  const NO_CONTENT: nat := 204
  const BAD_REQUEST: nat := 400
  const UNAUTHORIZED: nat := 401
  const NOT_FOUND: nat := 404

  /** The prefix of the Location header a successful create answers with. */
  const LocationBase: string := "http://localhost:8000/list/"

  /** A request after the framework has matched its route and parsed it. */
  datatype Request =
    | ListBookmarks
    | GetBookmark(id: Id)
    | CreateBookmark(payload: Payload)
    | DeleteBookmark(id: Id)

  /** Response bodies, by shape rather than by serialised text. */
  datatype Body =
    | BookmarkList(items: seq<Bookmark>)
    | Single(record: Bookmark)
    | CreatedId(newId: Id)
    | ErrorJson(error: string)
    | Text(text: string)
    | NoContent

  datatype Response = Response(status: nat, body: Body, location: Option<string>)

  /** The line each path writes to the log, as a tag: errors and infos. */
  datatype LogEvent =
    | UnauthorizedRequest(path: string)
    | CardNotFound(id: Id)
    | TitleIsRequired
    | ContentIsRequired
    | BookmarkCreated(id: Id)
    | ListNotFound(id: Id)
    | ListDeleted(id: Id)

  /** What handling one request produces. */
  datatype Outcome = Outcome(response: Response, store: Store, log: Option<LogEvent>)

  /** The record a valid create appends under the given fresh id. */
  function NewRecord(p: Payload, newId: Id): (b: Bookmark)
    requires p.title.Some? && p.url.Some?
    ensures b.id == newId
    ensures Some(b.title) == p.title && Some(b.url) == p.url
    ensures b.rating == p.rating && b.description == p.description
  {
    Bookmark(newId, p.title.value, p.url.value, p.rating, p.description)
  }

  /** The record at `i` is the first one carrying `id`. */
  predicate FirstMatch(s: Store, id: Id, i: nat) {
    i < |s| && s[i].id == id && forall k :: 0 <= k < i ==> s[k].id != id
  }

  /** GET /bookmarks: the whole collection, in order. */
  function ListRoute(s: Store): (o: Outcome)
    ensures o.store == s
    ensures o.response == Response(OK, BookmarkList(s), None)
  {
    Outcome(Response(OK, BookmarkList(s), None), s, None)
  }

  /** GET /bookmarks/:id: the first record with the id, or 404. */
  function GetRoute(s: Store, id: Id): (o: Outcome)
    ensures o.store == s
    ensures o.response.status == OK <==> Contains(s, id)
    ensures o.response.status == OK ==>
      exists i: nat :: FirstMatch(s, id, i) && o.response == Response(OK, Single(s[i]), None)
    ensures !Contains(s, id) ==>
      o.response == Response(NOT_FOUND, Text("Card Not Found"), None) && o.log == Some(CardNotFound(id))
  {
    FindIsAtFindIndex(s, id);
    match Find(s, id)
    case None =>
      Outcome(Response(NOT_FOUND, Text("Card Not Found"), None), s, Some(CardNotFound(id)))
    case Some(b) =>
      assert FirstMatch(s, id, FindIndex(s, id).value);
      Outcome(Response(OK, Single(b), None), s, None)
  }

  /** POST /bookmarks: validate, then append a record under `newId`. */
  function CreateRoute(s: Store, p: Payload, newId: Id): (o: Outcome)
    ensures !Present(p.title) ==>
      o == Outcome(Response(BAD_REQUEST, Text("Invalid data"), None), s, Some(TitleIsRequired))
    ensures Present(p.title) && !Present(p.url) ==>
      o == Outcome(Response(BAD_REQUEST, Text("Invalid data"), None), s, Some(ContentIsRequired))
    ensures Present(p.title) && Present(p.url) ==>
      && o.store == s + [NewRecord(p, newId)]
      && o.response == Response(CREATED, CreatedId(newId), Some(LocationBase + newId))
      && o.log == Some(BookmarkCreated(newId))
  {
    match ValidateCreate(p)
    case Invalid(TitleRequired) =>
      Outcome(Response(BAD_REQUEST, Text("Invalid data"), None), s, Some(TitleIsRequired))
    case Invalid(UrlRequired) =>
      Outcome(Response(BAD_REQUEST, Text("Invalid data"), None), s, Some(ContentIsRequired))
    case Valid =>
      var b := NewRecord(p, newId);
      Outcome(Response(CREATED, CreatedId(newId), Some(LocationBase + newId)), s + [b],
              Some(BookmarkCreated(newId)))
  }

  /** DELETE /bookmarks/:bookmark_id: excise the first record with the id,
      or 404 and leave the collection alone. */
  function DeleteRoute(s: Store, id: Id): (o: Outcome)
    ensures o.response.status == NO_CONTENT <==> Contains(s, id)
    ensures Contains(s, id) ==>
      && (exists i: nat :: FirstMatch(s, id, i) && o.store == Remove(s, i))
      && o.response == Response(NO_CONTENT, NoContent, None)
      && o.log == Some(ListDeleted(id))
    ensures !Contains(s, id) ==>
      o == Outcome(Response(NOT_FOUND, Text("Not Found"), None), s, Some(ListNotFound(id)))
  {
    match FindIndex(s, id)
    case None =>
      Outcome(Response(NOT_FOUND, Text("Not Found"), None), s, Some(ListNotFound(id)))
    case Some(i) =>
      assert FirstMatch(s, id, i);
      Outcome(Response(NO_CONTENT, NoContent, None), Remove(s, i), Some(ListDeleted(id)))
  }

  /** One request through the gate and then its route. `path` is the raw
      request path as the framework reports it (what the gate logs on
      rejection); `newId` stands for the `uuid()` the create route draws,
      and other routes ignore it. */
  function Handle(s: Store, secret: Option<string>, header: Option<string>, path: string,
                  req: Request, newId: Id)
    : (o: Outcome)
    ensures !Authorized(secret, header) ==>
      o == Outcome(Response(UNAUTHORIZED, ErrorJson("Unauthorized request"), None), s,
                   Some(UnauthorizedRequest(path)))
    ensures o.response.status == UNAUTHORIZED <==> !Authorized(secret, header)
    ensures o.response.status in {BAD_REQUEST, UNAUTHORIZED, NOT_FOUND, OK} ==> o.store == s
    ensures
      || o.store == s
      || (&& o.response.status == CREATED
          && req.CreateBookmark?
          && Present(req.payload.title) && Present(req.payload.url)
          && o.store == s + [NewRecord(req.payload, newId)])
      || (&& o.response.status == NO_CONTENT
          && req.DeleteBookmark?
          && exists i: nat :: FirstMatch(s, req.id, i) && o.store == Remove(s, i))
  {
    if !Authorized(secret, header) then
      Outcome(Response(UNAUTHORIZED, ErrorJson("Unauthorized request"), None), s,
              Some(UnauthorizedRequest(path)))
    else
      match req
      case ListBookmarks => ListRoute(s)
      case GetBookmark(id) => GetRoute(s, id)
      case CreateBookmark(p) => CreateRoute(s, p, newId)
      case DeleteBookmark(id) => DeleteRoute(s, id)
  }
}
