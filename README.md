# Comment service: a verified model

The service is a small HTTP worker that stores blog comments. Every blog's comments are
one JSON array, kept in an object-store bucket under the key `<blog>.json`. There are three
endpoints:

- `GET /getComments?blog=…` returns the array, or `[]` when the blog has none.
- `POST /insertComment?blog=…` appends one new comment built from the JSON body.
- `DELETE /deleteComment?blog=…&cid=…` removes the comment with that `cid` and every
  direct reply to it (every comment whose `rid` is that `cid`).

A routes table sends each (path, method) pair to its handler. A known path with another
method gets 405; any other path gets 404. Each handler checks its inputs in a fixed order
and returns early with 400 or 401. After that it makes one read of the blog's document.
Only insert and delete write: on success each overwrites the whole document once. Listing
never writes.

The model is in Dafny and has these modules:

- `Comments` (`comments.dfy`): the stored record `Comment(cid, content, rid, username, time)`,
  the decoded store `map<string, seq<Comment>>`, responses, the key `blog + ".json"`, and
  JavaScript truthiness of an absent-or-string value (`Present`).
- `Cascade` (`cascade.dfy`): the delete filter `Prune`, with lemmas for what it keeps, for order,
  for concatenation, for idempotence and for the one-level depth of the cascade.
- `Requests` (`requests.dfy`): the parsed request and the values taken from outside it
  (`Context`), first-match query lookup, and the case-sensitive substring test the insert
  handler applies to the Content-Type header.
- `Router` (`router.dfy`): the routes table and the dispatch decision.
- `Handlers` (`handlers.dfy`): one function per handler and one for the entry point. Each
  gives the response, the store afterwards and the list of object-store reads and writes
  made. The contracts state the early-exit order, the append, the filter and that no other
  key changes.
- `Worker` (`worker.dfy`): the imperative form. `Bucket` is a class whose `objects` map and
  ghost access `log` are changed in place by `Load` (get) and `Put` (put). The handler methods
  and `Fetch` do the source's read-modify-write step by step. Each is proved to give exactly
  the response, store and accesses of its `Handlers` function.
- `Properties` (`properties.dfy`): facts across several requests. These cover insert then
  delete, deleting twice, isolation between blogs, a preserved well-formedness invariant and
  end-to-end request scenarios.

Two points about the code that the contracts reflect:

- Authentication is checked before any input (`src/index.js:67-69`, `src/index.js:107-109`),
  so an unauthenticated request with no blog id gets 401.
- The cid comes from `crypto.randomUUID()` and is never checked for uniqueness. The model
  takes it as an input; only `InsertThenDeleteRestores` assumes it is fresh, in its
  precondition.

## Model

| member | source | states |
|---|---|---|
| `Comments.KeyOfInjective` | src/index.js:58 | two blogs map to the same object key `blog + ".json"` only if they are the same blog |
| `Cascade.Prune` | src/index.js:127 | the filtered array is never longer than the input |
| `Cascade.PruneMembers` | src/index.js:127 | a comment is kept exactly when it was in the array and neither its `cid` nor its `rid` equals the target |
| `Cascade.PruneUnchanged` | src/index.js:125-131 | the filter leaves the length unchanged exactly when every comment survives, and then the result is the input itself |
| `Cascade.PruneSelects` | src/index.js:127 | the result is the subsequence of the input at exactly the surviving positions, in increasing order, so relative order is kept |
| `Cascade.PruneAppend` | src/index.js:127 | filtering a concatenation is the concatenation of the filtered parts |
| `Cascade.PruneIdempotent` | src/index.js:127 | filtering again by the same target removes nothing more |
| `Cascade.CascadeIsSingleLevel` | src/index.js:127 | a direct reply to the target is removed, but a reply to that reply is kept |
| `Requests.QueryGet` | src/index.js:111-112 | absent exactly when no pair has the name; otherwise the value of the first pair with that name |
| `Requests.Contains` | src/index.js:76-77 | true exactly when the pattern occurs at some position of the header value (case-sensitive) |
| `Router.Route` | src/index.js:16-36 | dispatches exactly for the three registered (path, method) pairs, to the handler registered for that pair; 405 exactly when the path is registered but the pair is not; 404 exactly when the path is not registered |
| `Handlers.GetComments` | src/index.js:52-63 | a missing or empty blog id is 400 with no store access; otherwise one read of `blog.json` and 200 with the stored array, or `[]` if the key is absent; the store never changes |
| `Handlers.InsertComment` | src/index.js:66-103 | 401 when not authenticated, then 400 for a missing blog id, a Content-Type without `application/json`, then a missing or empty content or username, in that order, each with no store access; 200 exactly when all checks pass, and then one read and one write, the key's array is the old one (or `[]`) plus exactly the new comment at the end, with the given uuid, content, rid, username and time, the new comment is well-formed, and every other key is unchanged |
| `Handlers.DeleteComment` | src/index.js:106-135 | 401 when not authenticated, then 400 when either id is missing or empty, with no store access; 404 with one read and no write when the key is absent or no comment matches; 200 exactly when some stored comment has the target as its `cid` or `rid`, and then the key's array holds exactly the surviving comments, is strictly shorter, is written once, and every other key is unchanged |
| `Handlers.Serve` | src/index.js:28-36 | a rejected route answers the router's status with no store access; only POST and DELETE requests change the store; no key is ever removed; a request changes at most the document of the blog it names; every stored comment was already there or is the new well-formed comment with this request's uuid and time |
| `Worker.Bucket.Load` | src/index.js:59 | returns the stored array under the key, or none when there is no object, and records one read |
| `Worker.Bucket.Put` | src/index.js:100 | overwrites the key with the given array, leaves every other key as it was, and records one write |
| `Worker.HandleGetComments` | src/index.js:52-63 | produces exactly the response, store and accesses of `Handlers.GetComments`, and writes nothing |
| `Worker.HandleInsertComment` | src/index.js:66-103 | checks in source order, then the append to the loaded copy and one put, produce exactly the response, store and accesses of `Handlers.InsertComment` |
| `Worker.HandleDeleteComment` | src/index.js:106-135 | the filter of the loaded copy, the length comparison and a put only when something was removed produce exactly the response, store and accesses of `Handlers.DeleteComment` |
| `Worker.Fetch` | src/index.js:10-36 | routing then at most one handler call produces exactly the response, store and accesses of `Handlers.Serve` |
| `Properties.ServePreservesWellFormed` | src/index.js:82-94 | if every stored comment has non-empty content and username, that is still true after any request |
| `Properties.InsertAppends` | src/index.js:87-100 | a valid authenticated insert answers 200 and sets the key to the old array plus the new comment |
| `Properties.DeleteLast` | src/index.js:124-134 | deleting the last comment of an array whose other comments all survive answers 200 and writes back the array without it |
| `Properties.InsertThenDeleteRestores` | src/index.js:66-135 | inserting a comment and then deleting it by its fresh id both succeed, and the blog's array ends as it was before (an absent blog is left with `[]`) |
| `Properties.DeleteTwiceNotFound` | src/index.js:125-131 | after a successful delete, the same delete answers 404 "Comment not found" and leaves the store as it was |
| `Properties.ServeIsolatesBlogs` | src/index.js:58 | no request for one blog changes what listing another blog returns |
| `Properties.ListingIsRepeatable` | src/index.js:52-63 | a GET request leaves the store as it was, so repeating it gives the same outcome |
| `Properties.InsertListDeleteScenario` | src/index.js:87-134 | on a blog with no comments: insert answers 200, listing returns exactly the new comment, delete by its id answers 200, and listing then returns `[]` |
| `Properties.MisroutedScenario` | src/index.js:29-36 | GET on an unknown path is 404 and POST on `/getComments` is 405, with no store access |

## Left out

- HTTP plumbing is not modelled: `Response` objects, the CORS header and `createResponse`
  (`src/index.js:2-7`). A response is a status with a message or a comment array.
- URL parsing (`src/index.js:11-14`) is not modelled. The query string is given already
  decoded, as the ordered list of its (name, value) pairs.
- The object store and JSON encoding are not modelled. The store holds decoded comment
  arrays, so a stored document that is not such an array is outside the model, and so is
  the encode/decode round trip.
- The request body is taken as already decoded: an object whose `content`, `username` and
  `rid` are strings or absent. A body that is not valid JSON, or is `null`, makes the source
  throw and answer 500. Field values of other JSON types (numbers, objects) are also not
  modelled.
- The catch-all 500 response and `console.error` (`src/index.js:37-40`) are not modelled.
  They are only reached through failures of the store or of JSON parsing, which are outside
  the model.
- `isAuthenticated` (`src/index.js:46-49`) is always true in the source. Here its result is
  the input `Context.authenticated`.
- `crypto.randomUUID()` and `Date.now()` are inputs (`Context.uuid`, `Context.now`). Nothing
  is claimed about cid uniqueness, because the code does not ensure it.
- Concurrency is not modelled. Each request runs to completion before the next, so the
  lost-update race between two concurrent writes to the same blog is not captured.
- Route lookups that reach JavaScript's inherited object properties are not modelled, for
  example a request method literally named `constructor`. The same goes for any method-name
  normalisation by the hosting runtime. Paths and methods are compared as exact strings.
- The `push` onto the decoded array (`src/index.js:99`) and the reassignment after `filter`
  (`src/index.js:127`) act on a freshly decoded local copy with no other references. They
  are modelled as sequence values in local variables; only `Bucket.Put` updates shared state.
