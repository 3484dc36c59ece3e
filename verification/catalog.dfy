/** The read-only catalogs (users, people, planets): id -> record, listed and looked up. */
module Catalog {
  import opened Responses

  /** A catalog entry as its serializer projects it; the fields are opaque to the core. */
  datatype Record = Record(fields: map<string, string>)

  lemma Pick(s: set<int>) returns (y: int)
    requires s != {}
    ensures y in s
  {
    if forall z :: z !in s {
      assert false;
    }
    y :| y in s;
  }

  /** m is the smallest id in s. */
  predicate IsMin(s: set<int>, m: int) {
    m in s && forall x :: x in s ==> m <= x
  }

  lemma {:induction false} MinOf(s: set<int>) returns (m: int)
    requires s != {}
    ensures IsMin(s, m)
  {
    var y := Pick(s);
    if s == {y} {
      m := y;
    } else {
      var rest := MinOf(s - {y});
      m := if y < rest then y else rest;
      forall x | x in s
        ensures m <= x
      {
        if x != y {
          assert x in s - {y};
        }
      }
    }
  }

  lemma MinExists(s: set<int>)
    requires s != {}
    ensures exists m :: IsMin(s, m)
  {
    var m := MinOf(s);
  }

  /** The ids of a catalog in ascending order: each id exactly once. */
  function SortedKeys(s: set<int>): (r: seq<int>)
    ensures |r| == |s|
    ensures forall x {:trigger x in r} :: x in r <==> x in s
    ensures forall j, k :: 0 <= j < k < |r| ==> r[j] < r[k]
    decreases s
  {
    if s == {} then []
    else
      MinExists(s);
      var m :| IsMin(s, m);
      var rest := SortedKeys(s - {m});
      assert forall k :: 0 <= k < |rest| ==> rest[k] in rest && m < rest[k];
      assert forall x {:trigger x in [m] + rest} :: x in [m] + rest <==> x == m || x in rest;
      [m] + rest
  }

  /** Index of id in a sequence of ids that holds it. */
  function Position(ids: seq<int>, id: int): (k: nat)
    requires id in ids
    ensures k < |ids| && ids[k] == id
  {
    if ids[0] == id then 0 else 1 + Position(ids[1..], id)
  }

  /** `Model.query.all()` followed by `serialize()` on each: one record per id, the k-th record
      belonging to the k-th smallest id. */
  function Listing(m: map<int, Record>): (r: seq<Record>)
    ensures |r| == |m|
    ensures forall k :: 0 <= k < |r| ==> SortedKeys(m.Keys)[k] in m && r[k] == m[SortedKeys(m.Keys)[k]]
  {
    var ids := SortedKeys(m.Keys);
    forall k | 0 <= k < |ids|
      ensures ids[k] in m
    {
      assert ids[k] in ids;
    }
    seq(|ids|, k requires 0 <= k < |ids| => m[ids[k]])
  }

  /** `Model.query.get(id)`: the record, or a 404 carrying `missing` when the id is absent. */
  function Lookup(m: map<int, Record>, id: int, missing: string): (r: Response<Record>)
    ensures r.Ok? <==> id in m
    ensures r.Ok? ==> r.body == m[id]
    ensures !r.Ok? ==> r == NotFound(missing, StatusNotFound) && r.Status() == 404
  {
    if id in m then Ok(m[id]) else NotFound(missing, StatusNotFound)
  }

  /** The listing holds every catalog record, and nothing that is not one. */
  lemma {:induction false} ListingCoversCatalog(m: map<int, Record>)
    ensures forall id :: id in m ==> m[id] in Listing(m)
    ensures forall x :: x in Listing(m) ==> exists id :: id in m && m[id] == x
  {
    var ids := SortedKeys(m.Keys);
    forall id | id in m
      ensures m[id] in Listing(m)
    {
      assert id in ids;
      var k := Position(ids, id);
      assert Listing(m)[k] == m[id];
    }
    forall x | x in Listing(m)
      ensures exists id :: id in m && m[id] == x
    {
      var k :| 0 <= k < |Listing(m)| && Listing(m)[k] == x;
      assert ids[k] in m && m[ids[k]] == x;
    }
  }

  /** Listing and lookup agree: whatever a lookup finds is in the listing, and every listed
      record is what a lookup of some id finds. */
  lemma ListingAgreesWithLookup(m: map<int, Record>, missing: string)
    ensures forall id :: id in m ==> Lookup(m, id, missing) == Ok(m[id]) && m[id] in Listing(m)
    ensures forall x :: x in Listing(m) ==> exists id :: id in m && Lookup(m, id, missing) == Ok(x)
  {
    ListingCoversCatalog(m);
    forall x | x in Listing(m)
      ensures exists id :: id in m && Lookup(m, id, missing) == Ok(x)
    {
      var id :| id in m && m[id] == x;
      assert Lookup(m, id, missing) == Ok(x);
    }
  }
}
