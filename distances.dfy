/**
  The distance listing shown for one source record: the mirror filtered to
  the records whose id differs from the source's, each mapped to its name and
  its distance from the source. The distance itself belongs to the map
  library and is a parameter here.
 */
module Distances {
  import opened Locations

  datatype Coord = Coord(lat: real, lng: real)

  function Position(l: Location): Coord
  {
    Coord(l.lat, l.lng)
  }

  /** One line of the listing: a record's name and its distance in meters. */
  datatype Entry = Entry(name: string, meters: real)

  /** The records of locs whose id differs from id, in their order. */
  function Others(locs: seq<Location>, id: int): (r: seq<Location>)
    ensures |r| <= |locs|
    ensures forall k :: 0 <= k < |r| ==> r[k].id != id
    decreases |locs|
  {
    if |locs| == 0 then []
    else if locs[0].id != id then [locs[0]] + Others(locs[1..], id)
    else Others(locs[1..], id)
  }

  /** How many records of locs carry the id. */
  function CountId(locs: seq<Location>, id: int): nat
    decreases |locs|
  {
    if |locs| == 0 then 0
    else (if locs[0].id == id then 1 else 0) + CountId(locs[1..], id)
  }

  /** The listing of the source, as the filter-then-map chain computes it in
      one pass over the mirror. */
  function DistanceListing(locs: seq<Location>, from: Location, dist: (Coord, Coord) -> real): (r: seq<Entry>)
    ensures |r| <= |locs|
    ensures from in locs ==> |r| < |locs|
    decreases |locs|
  {
    if |locs| == 0 then []
    else if locs[0].id != from.id then
      assert from in locs ==> from in locs[1..] by {
        if from in locs {
          var k :| 0 <= k < |locs| && locs[k] == from;
          assert k != 0 && locs[1..][k - 1] == from;
        }
      }
      [Entry(locs[0].name, dist(Position(from), Position(locs[0])))] + DistanceListing(locs[1..], from, dist)
    else DistanceListing(locs[1..], from, dist)
  }

  /** Entry k of the listing is the name and distance of the k-th record
      whose id differs from the source's. */
  lemma {:induction false} ListingFollowsOthers(locs: seq<Location>, from: Location, dist: (Coord, Coord) -> real)
    ensures |DistanceListing(locs, from, dist)| == |Others(locs, from.id)|
    ensures forall k :: 0 <= k < |DistanceListing(locs, from, dist)| ==>
      DistanceListing(locs, from, dist)[k] ==
        Entry(Others(locs, from.id)[k].name, dist(Position(from), Position(Others(locs, from.id)[k])))
  {
    if |locs| > 0 {
      ListingFollowsOthers(locs[1..], from, dist);
    }
  }

  /** A record is listed exactly when it is in the mirror and its id differs
      from the source's; in particular no record with the source's id is. */
  lemma {:induction false} OthersMembers(locs: seq<Location>, id: int)
    ensures forall l :: l in Others(locs, id) <==> l in locs && l.id != id
  {
    if |locs| > 0 {
      OthersMembers(locs[1..], id);
      assert locs == [locs[0]] + locs[1..];
    }
  }

  /** The filter keeps the order of the mirror: filtering a concatenation
      concatenates the filtered parts. */
  lemma {:induction false} OthersAppend(a: seq<Location>, b: seq<Location>, id: int)
    ensures Others(a + b, id) == Others(a, id) + Others(b, id)
  {
    if |a| > 0 {
      OthersAppend(a[1..], b, id);
      assert (a + b)[1..] == a[1..] + b;
    } else {
      assert a + b == b;
    }
  }

  /** One record is dropped per occurrence of the id. */
  lemma {:induction false} OthersCount(locs: seq<Location>, id: int)
    ensures |Others(locs, id)| == |locs| - CountId(locs, id)
  {
    if |locs| > 0 {
      OthersCount(locs[1..], id);
    }
  }

  lemma {:induction false} CountIdUnique(locs: seq<Location>, from: Location)
    requires UniqueIds(locs) && from in locs
    ensures CountId(locs, from.id) == 1
  {
    if locs[0] == from {
      CountIdAbsent(locs[1..], from.id);
    } else {
      assert from in locs[1..];
      CountIdUnique(locs[1..], from);
      var k :| 0 <= k < |locs[1..]| && locs[1..][k] == from;
      assert locs[k + 1] == from;
    }
  }

  lemma {:induction false} CountIdAbsent(locs: seq<Location>, id: int)
    requires forall k :: 0 <= k < |locs| ==> locs[k].id != id
    ensures CountId(locs, id) == 0
  {
    if |locs| > 0 {
      CountIdAbsent(locs[1..], id);
    }
  }

  /** With unique ids and the source in the mirror, the listing has one entry
      fewer than the mirror, so none when the source is the only record. */
  lemma ListingLength(locs: seq<Location>, from: Location, dist: (Coord, Coord) -> real)
    requires UniqueIds(locs) && from in locs
    ensures |DistanceListing(locs, from, dist)| == |locs| - 1
    ensures locs == [from] ==> DistanceListing(locs, from, dist) == []
  {
    ListingFollowsOthers(locs, from, dist);
    OthersCount(locs, from.id);
    CountIdUnique(locs, from);
  }
}
