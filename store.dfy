/**
 * The bookmark table that the router reads and writes: an id-keyed table of
 * records with four text columns. The id is assigned by the table on insert,
 * strictly above every id handed out before, so ids are never reused and
 * ascending id order is insertion order.
 */
module BookmarkStore {

  datatype Option<T> = None | Some(value: T)

  /** The four text columns of a row. */
  datatype Fields = Fields(title: string, url: string, description: string, rating: string)

  /** A row together with its id, as the table hands it out. */
  datatype Bookmark = Bookmark(id: nat, title: string, url: string, description: string, rating: string)
  {
    function Columns(): Fields {
      Fields(title, url, description, rating)
    }
  }

  function Row(id: nat, f: Fields): (b: Bookmark)
    ensures b.id == id && b.Columns() == f
  {
    Bookmark(id, f.title, f.url, f.description, f.rating)
  }

  /** A partial update: a field that is None is not written. */
  datatype Patch = Patch(title: Option<string>, url: Option<string>, description: Option<string>, rating: Option<string>)

  function Pick(v: Option<string>, current: string): string {
    match v
    case Some(s) => s
    case None => current
  }

  /** The columns after a partial update: supplied fields are replaced, the others kept. */
  function Apply(f: Fields, p: Patch): Fields {
    Fields(Pick(p.title, f.title), Pick(p.url, f.url), Pick(p.description, f.description), Pick(p.rating, f.rating))
  }

  /** Writing the same partial update twice is the same as writing it once. */
  lemma ApplyIdempotent(f: Fields, p: Patch)
    ensures Apply(Apply(f, p), p) == Apply(f, p)
  {
  }

  /** A partial update leaves a row as it was exactly when every supplied field already holds its value. */
  lemma ApplyUnchanged(f: Fields, p: Patch)
    ensures Apply(f, p) == f <==>
      (p.title.Some? ==> p.title.value == f.title) &&
      (p.url.Some? ==> p.url.value == f.url) &&
      (p.description.Some? ==> p.description.value == f.description) &&
      (p.rating.Some? ==> p.rating.value == f.rating)
  {
  }

  /** The rows whose id is below n, in ascending id order. */
  function Listing(rows: map<nat, Fields>, n: nat): (r: seq<Bookmark>)
    ensures |r| <= n
    ensures forall i :: 0 <= i < |r| ==> r[i].id < n && r[i].id in rows && rows[r[i].id] == r[i].Columns()
  {
    if n == 0 then []
    else Listing(rows, n - 1) + (if n - 1 in rows then [Row(n - 1, rows[n - 1])] else [])
  }

  ghost function KeysBelow(rows: map<nat, Fields>, n: nat): set<nat> {
    set id | id in rows && id < n
  }

  /** The listing is strictly ascending in id, so no row appears twice. */
  lemma {:induction false} ListingSorted(rows: map<nat, Fields>, n: nat)
    ensures forall i, j :: 0 <= i < j < |Listing(rows, n)| ==> Listing(rows, n)[i].id < Listing(rows, n)[j].id
  {
    if n > 0 {
      ListingSorted(rows, n - 1);
    }
  }

  /** Every row with an id below n appears in the listing. */
  lemma {:induction false} ListingComplete(rows: map<nat, Fields>, n: nat, id: nat)
    requires id in rows && id < n
    ensures exists i :: 0 <= i < |Listing(rows, n)| && Listing(rows, n)[i] == Row(id, rows[id])
  {
    var r := Listing(rows, n);
    if id == n - 1 {
      assert r[|r| - 1] == Row(id, rows[id]);
    } else {
      ListingComplete(rows, n - 1, id);
      var i :| 0 <= i < |Listing(rows, n - 1)| && Listing(rows, n - 1)[i] == Row(id, rows[id]);
      assert r[i] == Row(id, rows[id]);
    }
  }

  /** The listing holds one entry per row with an id below n. */
  lemma {:induction false} ListingLength(rows: map<nat, Fields>, n: nat)
    ensures |Listing(rows, n)| == |KeysBelow(rows, n)|
  {
    if n > 0 {
      ListingLength(rows, n - 1);
      if n - 1 in rows {
        assert KeysBelow(rows, n) == KeysBelow(rows, n - 1) + {n - 1};
      } else {
        assert KeysBelow(rows, n) == KeysBelow(rows, n - 1);
      }
    }
  }

  /** Two tables that agree below n list the same rows below n. */
  lemma {:induction false} ListingAgree(a: map<nat, Fields>, b: map<nat, Fields>, n: nat)
    requires forall id :: id < n ==> (id in a <==> id in b)
    requires forall id :: id < n && id in a ==> a[id] == b[id]
    ensures Listing(a, n) == Listing(b, n)
  {
    if n > 0 {
      ListingAgree(a, b, n - 1);
    }
  }

  /** Inserting at an id above every existing one appends the new row to the listing. */
  lemma ListingInsert(rows: map<nat, Fields>, n: nat, f: Fields)
    requires forall id :: id in rows ==> id < n
    ensures Listing(rows[n := f], n + 1) == Listing(rows, n) + [Row(n, f)]
  {
    ListingAgree(rows[n := f], rows, n);
  }

  /** The listing without the row whose id is k (a filter on id). */
  function Without(s: seq<Bookmark>, k: nat): (r: seq<Bookmark>)
    ensures |r| <= |s|
    ensures forall i :: 0 <= i < |r| ==> r[i].id != k
  {
    if s == [] then []
    else Without(s[..|s| - 1], k) + (if s[|s| - 1].id == k then [] else [s[|s| - 1]])
  }

  /** The filter keeps every entry with another id and adds none. */
  lemma {:induction false} WithoutMembers(s: seq<Bookmark>, k: nat)
    ensures forall x :: x in Without(s, k) <==> x in s && x.id != k
  {
    if s != [] {
      WithoutMembers(s[..|s| - 1], k);
      assert s == s[..|s| - 1] + [s[|s| - 1]];
    }
  }

  /** Removing a row removes exactly its entry from the listing, keeping the order of the rest. */
  lemma {:induction false} ListingRemove(rows: map<nat, Fields>, n: nat, k: nat)
    ensures Listing(rows - {k}, n) == Without(Listing(rows, n), k)
  {
    if n > 0 {
      ListingRemove(rows, n - 1, k);
      var s := Listing(rows, n);
      if n - 1 in rows {
        assert s[..|s| - 1] == Listing(rows, n - 1);
      } else {
        assert s == Listing(rows, n - 1);
      }
    }
  }

  /** The listing with the entry whose id is k replaced by row (k, f). */
  function Replace(s: seq<Bookmark>, k: nat, f: Fields): (r: seq<Bookmark>)
    ensures |r| == |s|
    ensures forall i :: 0 <= i < |s| ==> r[i] == if s[i].id == k then Row(k, f) else s[i]
  {
    seq(|s|, i requires 0 <= i < |s| => if s[i].id == k then Row(k, f) else s[i])
  }

  /** Replacing the entry with id k touches no entry with another id. */
  lemma {:induction false} ReplaceKeepsOthers(s: seq<Bookmark>, k: nat, f: Fields)
    ensures Without(Replace(s, k, f), k) == Without(s, k)
  {
    if s != [] {
      var init := s[..|s| - 1];
      ReplaceKeepsOthers(init, k, f);
      var r := Replace(s, k, f);
      assert r[..|r| - 1] == Replace(init, k, f);
    }
  }

  /** Overwriting an existing row replaces its entry in place, leaving every other entry as it was. */
  lemma {:induction false} ListingUpdate(rows: map<nat, Fields>, n: nat, k: nat, f: Fields)
    requires k in rows
    ensures Listing(rows[k := f], n) == Replace(Listing(rows, n), k, f)
  {
    if n > 0 {
      ListingUpdate(rows, n - 1, k, f);
      var tail := if n - 1 in rows then [Row(n - 1, rows[n - 1])] else [];
      assert Replace(Listing(rows, n - 1) + tail, k, f) == Replace(Listing(rows, n - 1), k, f) + Replace(tail, k, f);
    }
  }

  /** The table of bookmarks: rows keyed by id, and the next id insert hands out. */
  class Table {
    var rows: map<nat, Fields>
    var nextId: nat

    /** Every stored id was handed out before, so a fresh id is never in use. */
    ghost predicate Valid()
      reads this
    {
      forall id :: id in rows ==> id < nextId
    }

    /** An empty table; ids start at 1, as a generated integer column does. */
    constructor ()
      ensures Valid() && rows == map[] && nextId == 1
    {
      rows := map[];
      nextId := 1;
    }

    /** Read by id; None when no row has that id. */
    function Get(id: nat): (r: Option<Bookmark>)
      reads this
      ensures r.Some? <==> id in rows
      ensures r.Some? ==> r.value.id == id && r.value.Columns() == rows[id]
    {
      if id in rows then Some(Row(id, rows[id])) else None
    }

    /** Every row, in ascending id order. */
    function All(): (r: seq<Bookmark>)
      reads this
      requires Valid()
      ensures |r| == |rows|
      ensures forall i, j :: 0 <= i < j < |r| ==> r[i].id < r[j].id
      ensures forall i :: 0 <= i < |r| ==> Get(r[i].id) == Some(r[i])
      ensures forall id :: id in rows ==> exists i :: 0 <= i < |r| && r[i] == Row(id, rows[id])
    {
      ListingLength(rows, nextId);
      assert KeysBelow(rows, nextId) == rows.Keys;
      ListingSorted(rows, nextId);
      forall id | id in rows
        ensures exists i :: 0 <= i < |Listing(rows, nextId)| && Listing(rows, nextId)[i] == Row(id, rows[id])
      {
        ListingComplete(rows, nextId, id);
      }
      Listing(rows, nextId)
    }

    /** Insert a row at a fresh id and return it, id included. */
    method Insert(f: Fields) returns (b: Bookmark)
      requires Valid()
      modifies this
      ensures Valid()
      ensures b.id == old(nextId) && b.id !in old(rows) && b.Columns() == f
      ensures rows == old(rows)[b.id := f] && nextId == old(nextId) + 1
      ensures All() == old(All()) + [b]
    {
      ghost var before := Listing(rows, nextId);
      ListingInsert(rows, nextId, f);
      b := Row(nextId, f);
      rows := rows[nextId := f];
      nextId := nextId + 1;
      assert Listing(rows, nextId) == before + [b];
    }

    /** Write the supplied fields of row id; nothing happens when there is no such row. */
    method Update(id: nat, p: Patch)
      requires Valid()
      modifies this
      ensures Valid() && nextId == old(nextId)
      ensures id in old(rows) ==> rows == old(rows)[id := Apply(old(rows)[id], p)]
      ensures id !in old(rows) ==> rows == old(rows)
      ensures id in old(rows) ==> All() == Replace(old(All()), id, Apply(old(rows)[id], p))
    {
      if id in rows {
        ListingUpdate(rows, nextId, id, Apply(rows[id], p));
        rows := rows[id := Apply(rows[id], p)];
      }
    }

    /** Remove row id, if there is one. */
    method Delete(id: nat)
      requires Valid()
      modifies this
      ensures Valid() && nextId == old(nextId)
      ensures rows == old(rows) - {id}
      ensures All() == Without(old(All()), id)
    {
      ListingRemove(rows, nextId, id);
      rows := rows - {id};
    }
  }
}
