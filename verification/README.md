# bookmarks-server, modelled in Dafny

The service is one Express application (`src/app.js`) that keeps a list of
bookmark records in memory and serves four routes behind a bearer-token
check:

- `GET /bookmarks` lists the collection;
- `GET /bookmarks/:id` returns one record or 404 "Card Not Found";
- `POST /bookmarks` validates title then url (400 "Invalid data"), appends a
  record under a fresh id and answers 201 with `{id}` and a Location header;
- `DELETE /bookmarks/:bookmark_id` excises the first matching record (204) or
  answers 404 "Not Found".

The model makes the collection an immutable `seq<Bookmark>` and every request
a pure function `Handle(store, secret, header, path, request, newId)` returning the
response, the next collection and the log line written. Its contracts pin
down how the collection changes: an append on a valid create, an excision at
the first matching index on a delete, and no change on every 401, 400 and 404
path and on both reads.

Modules, leaves first:

- `Wrappers`: `Option`. It stands for JavaScript's `undefined`.
- `Values`: the parsed JSON values a body may carry, and JavaScript
  truthiness on them. The values include the infinities that an overflowing
  number literal parses to. Truthiness is the test `if (!title)` makes.
- `Auth`: `split(' ')` as JavaScript defines it, its inverse `Join`, and the
  gate `Authorized`. Both the secret (`API_TOKEN`, which may be unset) and the
  second header segment (missing when the header holds no space) are
  `Option<string>`. The source's comparison `undefined !== undefined` is false,
  and the model keeps that: with the secret unset, any non-empty header
  without a space passes.
- `Store`: the record type, the seed, `FindIndex`, `Find`, `Remove` and id
  uniqueness.
- `Validation`: the create checks.
- `App`: the routes, and `Handle`, which runs the gate first.
- `Session`: runs of many requests, the invariant every reachable collection
  keeps, and the request scenarios.

The Location header is `http://localhost:8000/list/<id>`. The service has no
`/list` route, but the model keeps the string exactly as the code writes it.

## Model

| member | source | states |
|---|---|---|
| Auth.IndexOf | src/app.js:58 | the position found is the first occurrence of the character; none exactly when the character does not occur |
| Auth.Split | src/app.js:58 | `split(' ')` yields at least one piece and no piece contains the separator |
| Auth.JoinSplit | src/app.js:58 | splitting loses nothing: joining the pieces with the separator gives back the header |
| Auth.SplitJoin | src/app.js:58 | splitting a join of separator-free pieces gives back the same pieces |
| Auth.SegmentOneIsSecondSegment | src/app.js:58 | element 1 of the split is the text between the first space and the next space (or the end), and is undefined when there is no space |
| Auth.Authorized | src/app.js:54-64 | the gate passes exactly when the header is present and non-empty and its second segment equals the secret, a missing segment matching a missing secret |
| Auth.WellFormedHeaderPasses | src/app.js:54-63 | `<scheme> <token>` with the configured token passes for any scheme |
| Auth.TrailingSegmentsIgnored | src/app.js:58 | further space-separated segments after the token do not stop the header from passing |
| Auth.SchemeIgnored | src/app.js:58 | changing the first (scheme) segment never changes the verdict |
| Auth.UnsetSecretAdmitsSpacelessHeaders | src/app.js:55-58 | with API_TOKEN unset, exactly the non-empty headers without a space pass |
| Auth.SetSecretNeedsSpace | src/app.js:58 | with API_TOKEN set, a passing header always contains a space |
| Store.FindIndex | src/app.js:140 | `findIndex` gives the first position whose id matches, and -1 (None) exactly when no record matches |
| Store.Find | src/app.js:85 | `find` gives a record of the collection with the id, and undefined (None) exactly when no record matches |
| Store.FindIsAtFindIndex | src/app.js:85 | the record `find` returns is the one at the first matching position |
| Store.Remove | src/app.js:149 | `splice(i, 1)` shortens the collection by one, keeps the records before i in place and moves the later ones down by one |
| Store.RemoveMultiset | src/app.js:149 | excision removes exactly one occurrence of the record at i and nothing else |
| Store.SeedUnique | src/app.js:33-47 | the seed is two records titled "Thinkful" then "Google", with distinct ids |
| Store.AppendFreshKeepsUnique | src/app.js:116-127 | appending under an id not in use keeps ids unique |
| Store.RemoveKeepsUnique | src/app.js:149 | excision keeps ids unique |
| Store.RemovedIdGone | src/app.js:140-149 | with unique ids, after excising the match no record carries that id |
| Store.RemoveKeepsOtherIds | src/app.js:149 | excision leaves every other id present exactly when it was present |
| Store.FindAppended | src/app.js:116-127 | a record appended under a fresh id is what a later search for that id finds |
| Validation.ValidateCreate | src/app.js:101-113 | the payload is valid exactly when title and url are both truthy; a falsy title is reported first, a falsy url only after a truthy title |
| Validation.TitleCheckedFirst | src/app.js:101-106 | with a falsy title the result is the title failure whatever the url |
| Validation.FalsyTitleRefused | src/app.js:101-106 | an empty string, 0, false or null title is refused like a missing one |
| App.NewRecord | src/app.js:118-124 | the created record carries the drawn id and exactly the title, url, rating and description of the body, rating and description possibly undefined |
| App.ListRoute | src/app.js:78-81 | listing answers 200 with the collection itself and leaves it unchanged |
| App.GetRoute | src/app.js:83-96 | 200 exactly when some record has the id, the body being the first such record; otherwise 404 "Card Not Found" with its log line; never changes the collection |
| App.CreateRoute | src/app.js:98-135 | falsy title gives 400 and the title log line, falsy url gives 400 and the content log line, both leaving the collection; otherwise the collection gains exactly one record at the end and the response is 201, `{id}`, Location "http://localhost:8000/list/" + id |
| App.DeleteRoute | src/app.js:137-155 | 204 with an empty body exactly when some record has the id, the new collection being the old one with the first match excised; otherwise 404 "Not Found" and no change |
| App.Handle | src/app.js:54-155 | 401 exactly when the gate fails, with the error JSON, a log line naming the raw request path and no change; 400, 404, 200 never change the collection; any change is an append on 201 or an excision at the first match on 204 |
| Session.SeedInv | src/app.js:33-47 | the seed has unique ids and truthy titles and urls |
| Session.HandlePreservesInv | src/app.js:98-155 | every request keeps unique ids and truthy titles and urls, given that the id drawn by a create that passes the gate and validation is fresh |
| Session.RunPreservesInv | src/app.js:98-155 | the invariant survives any sequence of requests whose drawn ids are fresh; rejected creates place no demand on their id |
| Session.ReachableInv | src/app.js:33-155 | every collection reachable from start-up satisfies the invariant |
| Session.RejectedRunUnchanged | src/app.js:54-61 | any number of requests that fail the gate leave the collection unchanged |
| Session.SeedListing | src/app.js:78-81 | a fresh instance lists exactly two records, ids "1" and "2", titled "Thinkful" then "Google" |
| Session.ListReturnsStore | src/app.js:78-81 | listing returns the collection exactly, in order, and does not change it |
| Session.CreateThenGet | src/app.js:116-134 | a valid create answers 201 with the new id and Location, grows the collection by one, and a get of that id returns the created record |
| Session.DeleteTwice | src/app.js:137-155 | with unique ids, deleting a present id answers 204 and shrinks the collection by one; then a get answers 404 and a second delete answers 404 without change |
| Session.DeleteKeepsOthers | src/app.js:149 | a delete leaves every other id present exactly when it was present before |

## Left out

- Framework and middleware (`src/app.js:1-8`, `49-52`): Express routing, body parsing, morgan, helmet, cors and dotenv are not modelled. A request arrives already matched to one of the four routes and parsed into a `Request`. Requests to unknown paths, which the framework answers itself after the gate, are not modelled.
- Header lookup: `req.get` matches header names case-insensitively. This is framework behaviour, so the header arrives as an `Option<string>`.
- Logging (`src/app.js:18-31`): the winston transports are I/O. Each log call is modelled only as a `LogEvent` tag in the outcome.
- Error handler (`src/app.js:66-75`): it depends on the environment and only formats a 500 response. It is also registered before the routes, so it never sees their errors.
- Id generation: `uuid()` (`src/app.js:116`) is foreign randomness. It is the `newId` parameter. The invariant lemmas require it to be fresh only when a create passes the gate and validation, since only then is it drawn. The route itself does not check this, just as the source does not.
- Id comparison: the source compares ids with loose `==`, and its seed ids are the numbers 1 and 2. So route parameters such as "1", "1.0" and " 1" all reach seed record 1. The model uses string ids, with seeds "1" and "2", and exact string equality, so it does not reproduce that coercion.
- Serialization: JSON encoding of bodies is not modelled, and neither is the form of the response headers. Bodies are datatype tags.
- Request bodies that are not JSON objects are not modelled. The route reads the four fields as optional JSON values.
- Request path: the gate logs the raw path (`req.path`) on rejection. The model takes that path as a parameter, exactly as the framework reports it. Route matching from that path is not modelled.
- Numbers: a JSON number is modelled as the double `JSON.parse` produces, written as a real. Rounding to the nearest double is not modelled. A literal that underflows is expected to arrive as `0.0`, and one that overflows as `Infinity`.
- Concurrency: the single-threaded event loop runs each handler to completion, so requests are handled one after another in `Session.Run`.
