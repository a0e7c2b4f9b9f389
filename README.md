# Bookmarks API router, modelled in Dafny

This project models the request handlers of a small bookmarks HTTP API. The
handlers sit in front of a table of bookmark rows. Each row has an id and four
text columns: title, url, description and rating.

- `store.dfy`, module `BookmarkStore`: the table the router reads and writes.
  It is a class `Table` whose field `rows` maps ids to records. A second field,
  `nextId`, is the next id that insert hands out. Insert always uses an id above
  every id in use, so ids are never reused. The listing order is ascending id,
  which is also insertion order. The module defines the listing (`Listing`), the
  partial update (`Apply`) and lemmas on how insert, update and delete change
  the listing.
- `router.dfy`, module `BookmarksRouter`: the handlers themselves.
  - `Serialize` copies the id and passes each text field through the sanitizer.
  - POST validation scans the fields in the order title, url, description,
    rating and stops at the first null one (`FindMissing`).
  - `HandleById` is the existence guard on `/:bookmark_id`, followed by the
    GET, DELETE and PATCH handlers.
  - The PATCH guard counts truthy fields (`CountTruthy`).
  - Three request sequences follow the endpoint tests: create then get, delete
    then list, patch then get.

The HTML sanitizer (the `xss` package) is foreign code. Every handler that
serializes takes it as a parameter `xss: string -> string`, and nothing is
assumed about it. A request body is a `RequestBody`. Each of the four fields is
an `Option<string>`, where `None` means the key is absent or `null`. All other
keys go in `others`, which no handler reads. So the contracts show that extra
keys never reach the table or the response.

The bookmark service module is not part of this model. Its five calls
(`getAllBookmarks`, `getById`, `insertBookmark`, `updateBookmark`,
`deleteBookmark`) become the methods of `Table` and are given the behaviour
that the router's callers and the service tests rely on. The service does not
say in what order the list comes back. The model lists rows in ascending id
order, since the endpoint tests and the service tests expect rows back in the
order they were inserted.

A bookmark's title is described as non-empty, but the code for create only
rejects `null` or absent fields. So an empty string passes validation and is
stored. The model follows the code.

## Model

| member | source | states |
|---|---|---|
| BookmarkStore.Table.constructor | test/bookmarks-endpoints.spec.js:22-28 | a new table is empty and is consistent (every stored id below the next id) |
| BookmarkStore.Table.Get | src/bookmarks/bookmarks-router.js:53-62 | lookup by id finds a row exactly when the id is stored, and returns that row's columns under that id |
| BookmarkStore.Table.All | test/bookmarks-service.spec.js:54-69 | the listing has one entry per stored row, is strictly ascending in id, every entry is what lookup by its id returns, and every stored row appears |
| BookmarkStore.Table.Insert | src/bookmarks/bookmarks-router.js:36-40 | insert stores the four values under a fresh id above all ids in use, leaves every other row unchanged and appends the new row to the end of the listing |
| BookmarkStore.Table.Update | src/bookmarks/bookmarks-router.js:97-101 | update of a stored id rewrites only the supplied fields of that row and replaces its entry in the listing in place; an unknown id changes nothing |
| BookmarkStore.Table.Delete | test/bookmarks-service.spec.js:110-118 | delete removes exactly that id; the new listing is the old one filtered on id, in the same order |
| BookmarkStore.Listing | test/bookmarks-service.spec.js:54-59 | every listed entry is a stored row with an id below the bound, and the listing is no longer than the bound |
| BookmarkStore.ListingSorted | test/bookmarks-endpoints.spec.js:40-44 | the listing is strictly ascending in id, so no row is listed twice |
| BookmarkStore.ListingComplete | test/bookmarks-endpoints.spec.js:40-44 | every stored row below the bound appears in the listing |
| BookmarkStore.ListingLength | test/bookmarks-endpoints.spec.js:24-27 | the listing length is the number of stored ids below the bound (zero for an empty table) |
| BookmarkStore.ListingAgree | src/bookmarks/bookmarks-router.js:20-22 | the listing depends only on the rows below the bound |
| BookmarkStore.ListingInsert | test/bookmarks-endpoints.spec.js:118-143 | storing a row at an id above every stored id appends it to the end of the listing |
| BookmarkStore.ListingRemove | test/bookmarks-endpoints.spec.js:199-210 | removing an id from the table filters that id out of the listing and keeps the order of the rest |
| BookmarkStore.ListingUpdate | test/bookmarks-endpoints.spec.js:231-253 | overwriting a stored row replaces its entry in place and leaves all other entries unchanged |
| BookmarkStore.Without | test/bookmarks-endpoints.spec.js:201 | the filter is no longer than its input and keeps no entry with the removed id |
| BookmarkStore.WithoutMembers | test/bookmarks-endpoints.spec.js:201 | an entry is in the filtered list if and only if it is in the input and its id differs from the removed one; ListingRemove states that the kept entries keep their order |
| BookmarkStore.ReplaceKeepsOthers | test/bookmarks-endpoints.spec.js:266-288 | replacing the entry with one id leaves the entries with every other id as they were, in the same order |
| BookmarkStore.ApplyIdempotent | src/bookmarks/bookmarks-router.js:97-101 | applying the same partial update twice is the same as applying it once |
| BookmarkStore.ApplyUnchanged | src/bookmarks/bookmarks-router.js:97-101 | a partial update leaves the row unchanged exactly when every supplied field already holds that value |
| BookmarksRouter.Serialize | src/bookmarks/bookmarks-router.js:8-14 | the id is passed through unchanged and each of title, url, description, rating is the sanitizer's image of the same input field |
| BookmarksRouter.SerializeAll | src/bookmarks/bookmarks-router.js:22 | the serialized list has the same length and order as the rows, and entry i is row i serialized |
| BookmarksRouter.SerializeWithout | test/bookmarks-endpoints.spec.js:199-210 | filtering an id out before or after serializing gives the same list |
| BookmarksRouter.SerializeConcat | src/bookmarks/bookmarks-router.js:22 | serializing a concatenation is the concatenation of the serialized parts |
| BookmarksRouter.Entries | src/bookmarks/bookmarks-router.js:27-30 | the new record always has four entries, absent ones included |
| BookmarksRouter.FindMissing | src/bookmarks/bookmarks-router.js:30-34 | the scan returns the key of the first null entry, every earlier entry being present, or None when no entry is null |
| BookmarksRouter.FirstMissingOrder | src/bookmarks/bookmarks-router.js:27-34 | the scan's answer is exactly the first missing field in the order title, url, description, rating; an empty string counts as present |
| BookmarksRouter.CountTruthy | src/bookmarks/bookmarks-router.js:86 | the count of truthy values is at most the number of values |
| BookmarksRouter.CountTruthyZero | src/bookmarks/bookmarks-router.js:86-87 | the count is zero if and only if no value is truthy (present and non-empty) |
| BookmarksRouter.GuardPasses | src/bookmarks/bookmarks-router.js:83-93 | the PATCH guard lets a body through if and only if one of title, url, description, rating is truthy; other keys play no part |
| BookmarksRouter.ListBookmarks | src/bookmarks/bookmarks-router.js:18-25 | GET / responds 200 with every row serialized, in listing order, one entry per stored row; an empty table gives an empty list |
| BookmarksRouter.CreateBookmark | src/bookmarks/bookmarks-router.js:26-47 | a body with a null field gets 400 `Missing '<field>' in request body` for the first one and the table is unchanged; otherwise exactly one row holding the four values is added at a fresh id, all other rows are unchanged, and the response is 201 with that row serialized |
| BookmarksRouter.GetBookmark | src/bookmarks/bookmarks-router.js:68-70 | GET by id responds 200 with a row carrying the found id |
| BookmarksRouter.DeleteBookmark | src/bookmarks/bookmarks-router.js:71-80 | DELETE responds 204 and removes exactly that row; the listing loses only that entry |
| BookmarksRouter.PatchBookmark | src/bookmarks/bookmarks-router.js:82-107 | with no truthy field: 400 with the message kept verbatim and the table unchanged; otherwise 204 and only the supplied fields of that row are written, all other rows and the id counter unchanged |
| BookmarksRouter.HandleById | src/bookmarks/bookmarks-router.js:51-107 | an unknown id gets 404 `Bookmark doesn't exist` with the table unchanged and no handler run; a known id gets the GET, DELETE or PATCH outcome above |
| BookmarksRouter.CreateThenGet | test/bookmarks-endpoints.spec.js:118-143 | after a successful create, GET on the returned id responds 200 with the very body the create returned |
| BookmarksRouter.DeleteThenList | test/bookmarks-endpoints.spec.js:199-210 | after DELETE on a stored id (204), GET / returns the previous serialized listing with that id filtered out |
| BookmarksRouter.PatchThenGet | test/bookmarks-endpoints.spec.js:266-288 | after a PATCH that passes the guard (204), GET on the id returns the old row with exactly the supplied fields replaced |

## Left out

- The sanitizer's stripping rules are left out. `xss` is foreign code passed in as a parameter. So the XSS tests are not modelled: they need markup removed from title and description and url and rating left alone.
- Express plumbing is left out: route matching, JSON body parsing, `res.status/json/end` and `next`. A rejected store promise goes to `next` and becomes a 500 response; stores here never fail, so that path is not modelled.
- The `Location` header of the 201 response is left out. It is built from `req.bookmarks` and `path.posix.join`, and `req.bookmarks` is defined nowhere, so its value cannot be stated.
- The id path parameter is a `nat`. Parsing it from a string is not modelled, nor is the database error a non-numeric id would cause.
- The bookmark service module and knex/PostgreSQL are not part of this model. The `Table` class stands in for them.
- Request fields are optional strings only. A JSON `null` in a PATCH body would make knex write SQL NULL into the column. Here `null` is the same as an absent key, which the update leaves alone. Numbers and booleans in bodies are not modelled.
- In the source, GET/DELETE/PATCH run asynchronously after the existence check, so another request could change the table in between. Concurrency is not modelled: each handler runs atomically.
- `src/bookmarkful.js` is left out. It is a driver script with environment loading, a connection and logging, and no logic.
- BookmarksRouter.GetBookmark: its own contract gives only the status and the id. The full response (the found row, serialized) is stated by `HandleById`.
