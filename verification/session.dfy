/** The collection over the life of the process: the invariant every
    reachable collection keeps, and the request sequences the routes
    promise something about. */
module Session {
  import opened Wrappers
  import opened Values
  import opened Auth
  import opened Store
  import opened Validation
  import opened App

  /** Ids are unique and every record has a truthy title and url. */
  predicate Inv(s: Store) {
    && UniqueIds(s)
    && forall k :: 0 <= k < |s| ==> Truthy(s[k].title) && Truthy(s[k].url)
  }

  /** One request as the process sees it: its Authorization header, its raw
      path, the parsed request, and the id `uuid()` would hand out if it
      creates. */
  datatype Call = Call(header: Option<string>, path: string, request: Request, freshId: Id)

  /** The request passes the gate and is a create whose body validates:
      the only case in which `uuid()` is drawn. */
  predicate DrawsId(secret: Option<string>, header: Option<string>, req: Request) {
    Authorized(secret, header) && req.CreateBookmark? && ValidateCreate(req.payload).Valid?
  }

  /** Whether a drawn id is already in use is up to `uuid()`; the model asks
      that it is not. */
  predicate FreshFor(s: Store, secret: Option<string>, c: Call) {
    DrawsId(secret, c.header, c.request) ==> !Contains(s, c.freshId)
  }

  /** The collection after handling `calls` in order, starting from `s`. */
  function Run(s: Store, secret: Option<string>, calls: seq<Call>): (r: Store)
    decreases |calls|
  {
    if |calls| == 0 then s
    else
      var o := Handle(s, secret, calls[0].header, calls[0].path, calls[0].request, calls[0].freshId);
      Run(o.store, secret, calls[1..])
  }

  /** Every id drawn along the run is one the collection does not hold at
      that moment. */
  predicate FreshAlong(s: Store, secret: Option<string>, calls: seq<Call>): (ok: bool)
    decreases |calls|
  {
    |calls| == 0 ||
    (&& FreshFor(s, secret, calls[0])
     && FreshAlong(Handle(s, secret, calls[0].header, calls[0].path, calls[0].request, calls[0].freshId).store,
                   secret, calls[1..]))
  }

  /** The start-up collection satisfies the invariant. */
  lemma SeedInv()
    ensures Inv(Seed)
  {
  }

  /** Every request keeps the invariant, provided the id a successful create
      draws is fresh. */
  lemma HandlePreservesInv(s: Store, secret: Option<string>, header: Option<string>, path: string, req: Request, newId: Id)
    requires Inv(s)
    requires DrawsId(secret, header, req) ==> !Contains(s, newId)
    ensures Inv(Handle(s, secret, header, path, req, newId).store)
  {
  }

  /** The invariant holds after any sequence of requests whose drawn ids are
      fresh. */
  lemma {:induction false} RunPreservesInv(s: Store, secret: Option<string>, calls: seq<Call>)
    requires Inv(s) && FreshAlong(s, secret, calls)
    ensures Inv(Run(s, secret, calls))
    decreases |calls|
  {
    if |calls| > 0 {
      var c := calls[0];
      HandlePreservesInv(s, secret, c.header, c.path, c.request, c.freshId);
      RunPreservesInv(Handle(s, secret, c.header, c.path, c.request, c.freshId).store, secret, calls[1..]);
    }
  }

  /** Every collection the process can reach from start-up has unique ids
      and only truthy titles and urls. */
  lemma ReachableInv(secret: Option<string>, calls: seq<Call>)
    requires FreshAlong(Seed, secret, calls)
    ensures Inv(Run(Seed, secret, calls))
  {
    SeedInv();
    RunPreservesInv(Seed, secret, calls);
  }

  /** Requests that fail the gate never change the collection, however
      many there are. */
  lemma {:induction false} RejectedRunUnchanged(s: Store, secret: Option<string>, calls: seq<Call>)
    requires forall k :: 0 <= k < |calls| ==> !Authorized(secret, calls[k].header)
    ensures Run(s, secret, calls) == s
    decreases |calls|
  {
    if |calls| > 0 {
      assert !Authorized(secret, calls[0].header);
      RejectedRunUnchanged(s, secret, calls[1..]);
    }
  }

  /** A freshly started instance lists exactly the two seed records,
      "Thinkful" then "Google". */
  lemma SeedListing(secret: Option<string>, header: Option<string>, path: string, newId: Id)
    requires Authorized(secret, header)
    ensures var o := Handle(Seed, secret, header, path, ListBookmarks, newId);
      && o.response.status == OK
      && o.response.body.BookmarkList?
      && |o.response.body.items| == 2
      && o.response.body.items[0].id == "1" && o.response.body.items[0].title == Str("Thinkful")
      && o.response.body.items[1].id == "2" && o.response.body.items[1].title == Str("Google")
  {
  }

  /** Listing returns the collection exactly, in its current order, and
      leaves it as it was. */
  lemma ListReturnsStore(s: Store, secret: Option<string>, header: Option<string>, path: string, newId: Id)
    requires Authorized(secret, header)
    ensures Handle(s, secret, header, path, ListBookmarks, newId)
         == Outcome(Response(OK, BookmarkList(s), None), s, None)
  {
  }

  /** A valid create answers 201 with the fresh id, and a following get of
      that id returns the very record created. */
  lemma CreateThenGet(s: Store, secret: Option<string>, header: Option<string>, path: string, p: Payload,
                      newId: Id, otherId: Id)
    requires Authorized(secret, header)
    requires Present(p.title) && Present(p.url)
    requires !Contains(s, newId)
    ensures var o1 := Handle(s, secret, header, path, CreateBookmark(p), newId);
      && o1.response == Response(CREATED, CreatedId(newId), Some(LocationBase + newId))
      && |o1.store| == |s| + 1
      && Handle(o1.store, secret, header, path, GetBookmark(newId), otherId).response
         == Response(OK, Single(NewRecord(p, newId)), None)
  {
    var b := NewRecord(p, newId);
    FindAppended(s, b);
    FindIsAtFindIndex(s + [b], newId);
  }

  /** With unique ids, deleting a present id twice answers 204 then 404,
      and a get in between answers 404. */
  lemma DeleteTwice(s: Store, secret: Option<string>, header: Option<string>, path: string, id: Id, n1: Id, n2: Id, n3: Id)
    requires Authorized(secret, header)
    requires UniqueIds(s) && Contains(s, id)
    ensures var o1 := Handle(s, secret, header, path, DeleteBookmark(id), n1);
      && o1.response == Response(NO_CONTENT, NoContent, None)
      && |o1.store| == |s| - 1
      && Handle(o1.store, secret, header, path, GetBookmark(id), n2).response
         == Response(NOT_FOUND, Text("Card Not Found"), None)
      && Handle(o1.store, secret, header, path, DeleteBookmark(id), n3)
         == Outcome(Response(NOT_FOUND, Text("Not Found"), None), o1.store, Some(ListNotFound(id)))
  {
  }

  /** Deleting one id leaves every other id exactly as present as before. */
  lemma DeleteKeepsOthers(s: Store, secret: Option<string>, header: Option<string>, path: string, id: Id, other: Id, newId: Id)
    requires Authorized(secret, header)
    requires other != id
    ensures Contains(Handle(s, secret, header, path, DeleteBookmark(id), newId).store, other)
        <==> Contains(s, other)
  {
    var o := Handle(s, secret, header, path, DeleteBookmark(id), newId);
    if Contains(s, id) {
      var i: nat :| FirstMatch(s, id, i) && o.store == Remove(s, i);
      RemoveKeepsOtherIds(s, i, other);
    }
  }
}
