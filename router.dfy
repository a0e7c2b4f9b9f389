/**
 * The bookmark request handlers: output serialization through a sanitizer,
 * create-time validation of the four required fields, the existence guard of
 * the id-scoped routes, and the partial-update guard. The sanitizer is a
 * parameter `xss`; its stripping rules are not modelled.
 */
module BookmarksRouter {
  import opened BookmarkStore

  /** A parsed JSON request body: None stands for a key that is absent or null. */
  datatype RequestBody = RequestBody(
    title: Option<string>,
    url: Option<string>,
    description: Option<string>,
    rating: Option<string>,
    others: map<string, string>)   // every other key, which no handler reads

  /** What a handler sends back. */
  datatype Payload = One(bookmark: Bookmark) | Many(bookmarks: seq<Bookmark>) | Error(message: string) | NoContent

  datatype Response = Response(status: nat, payload: Payload)

  /** The terminal handlers of the id-scoped route. */
  datatype ByIdRequest = GetOne | DeleteOne | PatchOne(body: RequestBody)

  const NotFoundMessage := "Bookmark doesn't exist"
  const NotFound := Response(404, Error(NotFoundMessage))

  /** Kept as the router has it, though it names fields of another resource. */
  const NoFieldsMessage := "Request body must contain either 'title', 'style' or 'content'"

  function MissingMessage(key: string): string {
    "Missing '" + key + "' in request body"
  }

  // ---------------------------------------------------------------- output

  /** The id is kept; each text field is sanitized. */
  function Serialize(xss: string -> string, b: Bookmark): (r: Bookmark)
    ensures r.id == b.id
    ensures r.title == xss(b.title) && r.url == xss(b.url)
    ensures r.description == xss(b.description) && r.rating == xss(b.rating)
  {
    Bookmark(b.id, xss(b.title), xss(b.url), xss(b.description), xss(b.rating))
  }

  /** Every row serialized, in the same order. */
  function SerializeAll(xss: string -> string, s: seq<Bookmark>): (r: seq<Bookmark>)
    ensures |r| == |s|
    ensures forall i :: 0 <= i < |s| ==> r[i] == Serialize(xss, s[i])
  {
    if s == [] then [] else [Serialize(xss, s[0])] + SerializeAll(xss, s[1..])
  }

  /** Serializing after removing an id is removing it after serializing, since ids are kept. */
  lemma {:induction false} SerializeWithout(xss: string -> string, s: seq<Bookmark>, k: nat)
    ensures SerializeAll(xss, Without(s, k)) == Without(SerializeAll(xss, s), k)
  {
    if s != [] {
      var init, last := s[..|s| - 1], s[|s| - 1];
      SerializeWithout(xss, init, k);
      SerializeConcat(xss, Without(init, k), if last.id == k then [] else [last]);
      var r := SerializeAll(xss, s);
      assert r[..|r| - 1] == SerializeAll(xss, init);
    }
  }

  /** Serialization distributes over concatenation. */
  lemma SerializeConcat(xss: string -> string, a: seq<Bookmark>, b: seq<Bookmark>)
    ensures SerializeAll(xss, a + b) == SerializeAll(xss, a) + SerializeAll(xss, b)
  {
    var l, r := SerializeAll(xss, a + b), SerializeAll(xss, a) + SerializeAll(xss, b);
    forall i | 0 <= i < |l|
      ensures l[i] == r[i]
    {
      if i < |a| {
        assert (a + b)[i] == a[i];
      } else {
        assert (a + b)[i] == b[i - |a|];
      }
    }
  }

  // ---------------------------------------------------------------- POST validation

  /** The key/value pairs of the new record, in the order they are checked. */
  function Entries(body: RequestBody): (r: seq<(string, Option<string>)>)
    ensures |r| == 4
  {
    [("title", body.title), ("url", body.url), ("description", body.description), ("rating", body.rating)]
  }

  /** `missing` names the first entry whose value is null, or is None when there is none. */
  predicate IsFirstMissing(entries: seq<(string, Option<string>)>, missing: Option<string>) {
    match missing
    case None => forall i :: 0 <= i < |entries| ==> entries[i].1.Some?
    case Some(key) =>
      exists i :: 0 <= i < |entries| && entries[i].0 == key && entries[i].1.None? &&
        forall j :: 0 <= j < i ==> entries[j].1.Some?
  }

  /** The scan over the entries, stopping at the first null value. */
  method FindMissing(entries: seq<(string, Option<string>)>) returns (missing: Option<string>)
    ensures IsFirstMissing(entries, missing)
  {
    for i := 0 to |entries|
      invariant forall j :: 0 <= j < i ==> entries[j].1.Some?
    {
      if entries[i].1.None? {
        return Some(entries[i].0);
      }
    }
    return None;
  }

  /** The required fields in the fixed order title, url, description, rating. */
  function FirstMissing(body: RequestBody): Option<string> {
    if body.title.None? then Some("title")
    else if body.url.None? then Some("url")
    else if body.description.None? then Some("description")
    else if body.rating.None? then Some("rating")
    else None
  }

  /** The scan's answer is exactly the first missing field in the fixed order. */
  lemma FirstMissingOrder(body: RequestBody, missing: Option<string>)
    ensures IsFirstMissing(Entries(body), missing) <==> missing == FirstMissing(body)
  {
    var e := Entries(body);
    assert e[0] == ("title", body.title) && e[1] == ("url", body.url);
    assert e[2] == ("description", body.description) && e[3] == ("rating", body.rating);
    var i := if body.title.None? then 0 else if body.url.None? then 1
             else if body.description.None? then 2 else if body.rating.None? then 3 else 4;
    assert forall j :: 0 <= j < i ==> e[j].1.Some?;
    if i < 4 {
      assert FirstMissing(body) == Some(e[i].0) && e[i].1.None?;
      if IsFirstMissing(e, missing) {
        var k :| 0 <= k < |e| && e[k].0 == missing.value && e[k].1.None? &&
          forall j :: 0 <= j < k ==> e[j].1.Some?;
        assert k == i;
      }
    }
  }

  // ---------------------------------------------------------------- PATCH guard

  /** JavaScript truthiness of an optional string: present and non-empty. */
  predicate Truthy(v: Option<string>) {
    v.Some? && v.value != ""
  }

  /** The supplied values of the four fields, in key order. */
  function Values(body: RequestBody): (r: seq<Option<string>>)
    ensures |r| == 4
  {
    [body.title, body.url, body.description, body.rating]
  }

  /** The number of truthy values. */
  function CountTruthy(vs: seq<Option<string>>): (n: nat)
    ensures n <= |vs|
  {
    if vs == [] then 0 else (if Truthy(vs[0]) then 1 else 0) + CountTruthy(vs[1..])
  }

  lemma {:induction false} CountTruthyZero(vs: seq<Option<string>>)
    ensures CountTruthy(vs) == 0 <==> forall i :: 0 <= i < |vs| ==> !Truthy(vs[i])
  {
    if vs != [] {
      CountTruthyZero(vs[1..]);
      assert forall i :: 1 <= i < |vs| ==> vs[i] == vs[1..][i - 1];
    }
  }

  predicate HasTruthyField(body: RequestBody) {
    Truthy(body.title) || Truthy(body.url) || Truthy(body.description) || Truthy(body.rating)
  }

  /** The guard lets a body through exactly when one of the four fields is truthy; other keys play no part. */
  lemma GuardPasses(body: RequestBody)
    ensures CountTruthy(Values(body)) != 0 <==> HasTruthyField(body)
  {
    var vs := Values(body);
    CountTruthyZero(vs);
    assert vs[0] == body.title && vs[1] == body.url && vs[2] == body.description && vs[3] == body.rating;
  }

  /** The partial update handed to the table: absent fields are dropped, present ones written, empty or not. */
  function PatchOf(body: RequestBody): Patch {
    Patch(body.title, body.url, body.description, body.rating)
  }

  // ---------------------------------------------------------------- handlers on "/"

  /** GET /: every row, serialized, in table order. */
  method ListBookmarks(db: Table, xss: string -> string) returns (resp: Response)
    requires db.Valid()
    ensures resp.status == 200 && resp.payload.Many?
    ensures resp.payload.bookmarks == SerializeAll(xss, db.All())
    ensures |resp.payload.bookmarks| == |db.rows|
    ensures db.rows == map[] ==> resp.payload.bookmarks == []
  {
    var rows := db.All();
    resp := Response(200, Many(SerializeAll(xss, rows)));
  }

  /** POST /: reject the first missing field, otherwise insert and return the new row. */
  method CreateBookmark(db: Table, xss: string -> string, body: RequestBody) returns (resp: Response)
    requires db.Valid()
    modifies db
    ensures db.Valid()
    ensures FirstMissing(body).Some? ==>
      resp == Response(400, Error(MissingMessage(FirstMissing(body).value))) && unchanged(db)
    ensures FirstMissing(body).None? ==>
      var f := Fields(body.title.value, body.url.value, body.description.value, body.rating.value);
      var id := old(db.nextId);
      id !in old(db.rows) &&
      db.rows == old(db.rows)[id := f] && db.nextId == id + 1 &&
      db.All() == old(db.All()) + [Row(id, f)] &&
      resp == Response(201, One(Serialize(xss, Row(id, f))))
  {
    var missing := FindMissing(Entries(body));
    FirstMissingOrder(body, missing);
    if missing.Some? {
      return Response(400, Error(MissingMessage(missing.value)));
    }
    var f := Fields(body.title.value, body.url.value, body.description.value, body.rating.value);
    var created := db.Insert(f);
    resp := Response(201, One(Serialize(xss, created)));
  }

  // ---------------------------------------------------------------- handlers on "/:bookmark_id"

  /** GET /:bookmark_id once the guard has found the row. */
  function GetBookmark(xss: string -> string, found: Bookmark): (resp: Response)
    ensures resp.status == 200 && resp.payload.One?
    ensures resp.payload.bookmark.id == found.id
  {
    Response(200, One(Serialize(xss, found)))
  }

  /** DELETE /:bookmark_id once the guard has found the row. */
  method DeleteBookmark(db: Table, id: nat) returns (resp: Response)
    requires db.Valid()
    modifies db
    ensures db.Valid() && db.nextId == old(db.nextId)
    ensures resp == Response(204, NoContent)
    ensures db.rows == old(db.rows) - {id}
    ensures db.All() == Without(old(db.All()), id)
  {
    db.Delete(id);
    resp := Response(204, NoContent);
  }

  /** PATCH /:bookmark_id once the guard has found the row. */
  method PatchBookmark(db: Table, id: nat, body: RequestBody) returns (resp: Response)
    requires db.Valid() && id in db.rows
    modifies db
    ensures db.Valid()
    ensures !HasTruthyField(body) ==> resp == Response(400, Error(NoFieldsMessage)) && unchanged(db)
    ensures HasTruthyField(body) ==>
      resp == Response(204, NoContent) && db.nextId == old(db.nextId) &&
      db.rows == old(db.rows)[id := Apply(old(db.rows)[id], PatchOf(body))] &&
      db.All() == Replace(old(db.All()), id, Apply(old(db.rows)[id], PatchOf(body)))
  {
    GuardPasses(body);
    var numberOfValues := CountTruthy(Values(body));
    if numberOfValues == 0 {
      return Response(400, Error(NoFieldsMessage));
    }
    db.Update(id, PatchOf(body));
    resp := Response(204, NoContent);
  }

  /** The existence guard, then the terminal handler; an unknown id stops at 404. */
  method HandleById(db: Table, xss: string -> string, id: nat, req: ByIdRequest) returns (resp: Response)
    requires db.Valid()
    modifies db
    ensures db.Valid()
    ensures id !in old(db.rows) ==> resp == NotFound && unchanged(db)
    ensures id in old(db.rows) && req.GetOne? ==>
      resp == Response(200, One(Serialize(xss, Row(id, old(db.rows)[id])))) && unchanged(db)
    ensures id in old(db.rows) && req.DeleteOne? ==>
      resp == Response(204, NoContent) && db.rows == old(db.rows) - {id} && db.nextId == old(db.nextId) &&
      db.All() == Without(old(db.All()), id)
    ensures id in old(db.rows) && req.PatchOne? && !HasTruthyField(req.body) ==>
      resp == Response(400, Error(NoFieldsMessage)) && unchanged(db)
    ensures id in old(db.rows) && req.PatchOne? && HasTruthyField(req.body) ==>
      resp == Response(204, NoContent) && db.nextId == old(db.nextId) &&
      db.rows == old(db.rows)[id := Apply(old(db.rows)[id], PatchOf(req.body))] &&
      db.All() == Replace(old(db.All()), id, Apply(old(db.rows)[id], PatchOf(req.body)))
  {
    var found := db.Get(id);
    if found.None? {
      return NotFound;
    }
    match req
    case GetOne =>
      resp := GetBookmark(xss, found.value);
    case DeleteOne =>
      resp := DeleteBookmark(db, id);
    case PatchOne(body) =>
      resp := PatchBookmark(db, id, body);
  }

  // ---------------------------------------------------------------- request sequences

  /** A created row reads back, by its id, as the very body the create returned. */
  method CreateThenGet(db: Table, xss: string -> string, body: RequestBody) returns (created: Response, fetched: Response)
    requires db.Valid() && FirstMissing(body).None?
    modifies db
    ensures db.Valid()
    ensures created.status == 201 && created.payload.One?
    ensures fetched == Response(200, created.payload)
  {
    created := CreateBookmark(db, xss, body);
    fetched := HandleById(db, xss, created.payload.bookmark.id, GetOne);
  }

  /** After a delete, the listing is the previous listing without that id. */
  method DeleteThenList(db: Table, xss: string -> string, id: nat) returns (deleted: Response, listed: Response)
    requires db.Valid() && id in db.rows
    modifies db
    ensures db.Valid()
    ensures deleted == Response(204, NoContent)
    ensures listed.status == 200 && listed.payload.Many?
    ensures listed.payload.bookmarks == Without(SerializeAll(xss, old(db.All())), id)
  {
    ghost var before := db.All();
    deleted := HandleById(db, xss, id, DeleteOne);
    listed := ListBookmarks(db, xss);
    SerializeWithout(xss, before, id);
  }

  /** After a patch that passes the guard, the row reads back with exactly the supplied fields changed. */
  method PatchThenGet(db: Table, xss: string -> string, id: nat, body: RequestBody) returns (patched: Response, fetched: Response)
    requires db.Valid() && id in db.rows && HasTruthyField(body)
    modifies db
    ensures db.Valid()
    ensures patched == Response(204, NoContent)
    ensures fetched == Response(200, One(Serialize(xss, Row(id, Apply(old(db.rows)[id], PatchOf(body))))))
  {
    patched := HandleById(db, xss, id, PatchOne(body));
    fetched := HandleById(db, xss, id, GetOne);
  }
}
