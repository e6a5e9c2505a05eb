/**
  Records of the client mirror and the two structures the client derives from
  them on every reload: the marker index (id to marker handle) and the option
  list of the location selector. Everything here is a pure specification; the
  class in module Client keeps its fields equal to these functions.
 */
module Locations {

  datatype Option<T> = None | Some(value: T)

  /** A marker handle. The map library's marker objects are opaque to the
      client; each one is modelled by the number the client's counter held
      when the marker was created. */
  type Handle = nat

  /** A stored location as the list endpoint delivers it. */
  datatype Location = Location(id: int, name: string, lat: real, lng: real)

  /** The value of a selector option: the placeholder's empty value, or the
      id of a record. */
  datatype OptionValue = Placeholder | IdValue(id: int)

  datatype SelectOption = SelectOption(value: OptionValue, text: string)

  const PlaceholderOption := SelectOption(Placeholder, "-- Select Location --")

  function Ids(locs: seq<Location>): set<int>
  {
    set l | l in locs :: l.id
  }

  function Elems(hs: seq<Handle>): set<Handle>
  {
    set h | h in hs
  }

  predicate UniqueIds(locs: seq<Location>)
  {
    forall i, j :: 0 <= i < j < |locs| ==> locs[i].id != locs[j].id
  }

  /** No record after position k carries the id of the record at k. */
  predicate LastWithId(locs: seq<Location>, k: nat)
    requires k < |locs|
  {
    forall j :: k < j < |locs| ==> locs[j].id != locs[k].id
  }

  lemma IdsSnoc(locs: seq<Location>, x: Location)
    ensures Ids(locs + [x]) == Ids(locs) + {x.id}
  {
    assert forall l :: l in locs + [x] <==> l in locs || l == x;
  }

  /** The n handles created from the counter value start on, in order. */
  function Span(start: nat, n: nat): (r: seq<Handle>)
    ensures |r| == n
  {
    if n == 0 then [] else Span(start, n - 1) + [start + n - 1]
  }

  lemma {:induction false} SpanAt(start: nat, n: nat)
    ensures |Span(start, n)| == n
    ensures forall k :: 0 <= k < n ==> Span(start, n)[k] == start + k
  {
    if n > 0 {
      SpanAt(start, n - 1);
    }
  }

  lemma ElemsSnoc(hs: seq<Handle>, h: Handle)
    ensures Elems(hs + [h]) == Elems(hs) + {h}
  {
    assert forall x :: x in hs + [h] <==> x in hs || x == h;
  }

  lemma {:induction false} UniqueIdsCount(locs: seq<Location>)
    requires UniqueIds(locs)
    ensures |Ids(locs)| == |locs|
  {
    if |locs| > 0 {
      var n := |locs| - 1;
      assert locs == locs[..n] + [locs[n]];
      IdsSnoc(locs[..n], locs[n]);
      UniqueIdsCount(locs[..n]);
      assert locs[n].id !in Ids(locs[..n]);
    }
  }

  // ---------------------------------------------------------------------
  // The marker index

  /** The table of id to handle after assigning, record by record and in
      order, the handle hs[k] to the id of locs[k]: a later record with the
      same id overwrites an earlier one. */
  function MarkerIndex(locs: seq<Location>, hs: seq<Handle>): (r: map<int, Handle>)
    requires |locs| == |hs|
    ensures |locs| > 0 ==> locs[|locs| - 1].id in r && r[locs[|locs| - 1].id] == hs[|hs| - 1]
    decreases |locs|
  {
    if |locs| == 0 then map[]
    else
      var n := |locs| - 1;
      MarkerIndex(locs[..n], hs[..n])[locs[n].id := hs[n]]
  }

  lemma MarkerIndexSnoc(locs: seq<Location>, hs: seq<Handle>, x: Location, h: Handle)
    requires |locs| == |hs|
    ensures MarkerIndex(locs + [x], hs + [h]) == MarkerIndex(locs, hs)[x.id := h]
  {
    assert (locs + [x])[..|locs|] == locs;
    assert (hs + [h])[..|hs|] == hs;
  }

  /** The index knows exactly the ids that occur in the records. */
  lemma {:induction false} MarkerIndexKeys(locs: seq<Location>, hs: seq<Handle>)
    requires |locs| == |hs|
    ensures MarkerIndex(locs, hs).Keys == Ids(locs)
  {
    if |locs| > 0 {
      var n := |locs| - 1;
      assert locs == locs[..n] + [locs[n]];
      MarkerIndexKeys(locs[..n], hs[..n]);
      IdsSnoc(locs[..n], locs[n]);
    }
  }

  /** Every handle in the index is one of the handles it was built from. */
  lemma {:induction false} MarkerIndexValues(locs: seq<Location>, hs: seq<Handle>)
    requires |locs| == |hs|
    ensures MarkerIndex(locs, hs).Values <= Elems(hs)
  {
    if |locs| > 0 {
      var n := |locs| - 1;
      MarkerIndexValues(locs[..n], hs[..n]);
      var m := MarkerIndex(locs[..n], hs[..n]);
      var m' := m[locs[n].id := hs[n]];
      assert MarkerIndex(locs, hs) == m';
      assert m'.Values <= m.Values + {hs[n]};
      assert hs == hs[..n] + [hs[n]];
    }
  }

  /** The id of the last record carrying it maps to that record's handle. */
  lemma {:induction false} MarkerIndexLastWins(locs: seq<Location>, hs: seq<Handle>, k: nat)
    requires |locs| == |hs| && k < |locs| && LastWithId(locs, k)
    ensures locs[k].id in MarkerIndex(locs, hs)
    ensures MarkerIndex(locs, hs)[locs[k].id] == hs[k]
  {
    var n := |locs| - 1;
    if k < n {
      assert LastWithId(locs[..n], k);
      MarkerIndexLastWins(locs[..n], hs[..n], k);
    }
  }

  /** Every entry of the index is the handle of the last record with that id. */
  lemma MarkerIndexEntries(locs: seq<Location>, hs: seq<Handle>, id: int)
    requires |locs| == |hs| && id in MarkerIndex(locs, hs)
    ensures exists k :: (0 <= k < |locs| && locs[k].id == id && LastWithId(locs, k) &&
                         MarkerIndex(locs, hs)[id] == hs[k])
  {
    MarkerIndexKeys(locs, hs);
    var k :| 0 <= k < |locs| && locs[k].id == id;
    while !LastWithId(locs, k)
      invariant 0 <= k < |locs| && locs[k].id == id
      decreases |locs| - k
    {
      var j :| k < j < |locs| && locs[j].id == locs[k].id;
      k := j;
    }
    MarkerIndexLastWins(locs, hs, k);
  }

  /** With unique ids, record k maps to handle k and the index has one entry
      per record. */
  lemma MarkerIndexOfUnique(locs: seq<Location>, hs: seq<Handle>)
    requires |locs| == |hs| && UniqueIds(locs)
    ensures forall k :: 0 <= k < |locs| ==>
      locs[k].id in MarkerIndex(locs, hs) && MarkerIndex(locs, hs)[locs[k].id] == hs[k]
    ensures |MarkerIndex(locs, hs)| == |locs|
  {
    forall k | 0 <= k < |locs|
      ensures locs[k].id in MarkerIndex(locs, hs) && MarkerIndex(locs, hs)[locs[k].id] == hs[k]
    {
      assert LastWithId(locs, k);
      MarkerIndexLastWins(locs, hs, k);
    }
    MarkerIndexKeys(locs, hs);
    UniqueIdsCount(locs);
  }

  /** Every handle hs[k] has a click listener registered with record locs[k]. */
  ghost predicate Registered(listeners: map<Handle, Location>, hs: seq<Handle>, locs: seq<Location>)
  {
    |hs| == |locs| && forall k :: 0 <= k < |hs| ==> hs[k] in listeners && listeners[hs[k]] == locs[k]
  }

  lemma RegisteredSnoc(listeners: map<Handle, Location>, hs: seq<Handle>, locs: seq<Location>, h: Handle, x: Location)
    requires Registered(listeners, hs, locs) && h !in hs
    ensures Registered(listeners[h := x], hs + [h], locs + [x])
  {
  }

  // ---------------------------------------------------------------------
  // The selector

  /** One option per record, value = id and label = name, in record order. */
  function RecordOptions(locs: seq<Location>): (r: seq<SelectOption>)
    ensures |r| == |locs|
    ensures forall k :: 0 <= k < |r| ==> r[k].value != Placeholder
    decreases |locs|
  {
    if |locs| == 0 then []
    else
      var n := |locs| - 1;
      RecordOptions(locs[..n]) + [SelectOption(IdValue(locs[n].id), locs[n].name)]
  }

  /** The option list of the selector after a reload with the records locs. */
  function OptionsFor(locs: seq<Location>): (r: seq<SelectOption>)
    ensures |r| == |locs| + 1 && r[0] == PlaceholderOption
    ensures forall k :: 1 <= k < |r| ==> r[k].value != Placeholder
  {
    [PlaceholderOption] + RecordOptions(locs)
  }

  lemma OptionsForSnoc(locs: seq<Location>, x: Location)
    ensures OptionsFor(locs + [x]) == OptionsFor(locs) + [SelectOption(IdValue(x.id), x.name)]
  {
    assert (locs + [x])[..|locs|] == locs;
  }

  function ValuesOf(opts: seq<SelectOption>): set<OptionValue>
  {
    set o | o in opts :: o.value
  }

  lemma {:induction false} RecordOptionsAt(locs: seq<Location>)
    ensures |RecordOptions(locs)| == |locs|
    ensures forall k :: 0 <= k < |locs| ==>
      RecordOptions(locs)[k] == SelectOption(IdValue(locs[k].id), locs[k].name)
  {
    if |locs| > 0 {
      RecordOptionsAt(locs[..|locs| - 1]);
    }
  }

  /** The selector holds the placeholder first, then option k + 1 for record k. */
  lemma OptionsForAt(locs: seq<Location>)
    ensures |OptionsFor(locs)| == |locs| + 1
    ensures OptionsFor(locs)[0] == PlaceholderOption
    ensures forall k :: 0 <= k < |locs| ==>
      OptionsFor(locs)[k + 1] == SelectOption(IdValue(locs[k].id), locs[k].name)
  {
    RecordOptionsAt(locs);
  }

  /** The values a user can pick are the placeholder and the ids of the records. */
  lemma OptionValues(locs: seq<Location>)
    ensures ValuesOf(OptionsFor(locs)) == {Placeholder} + (set id | id in Ids(locs) :: IdValue(id))
  {
    OptionsForAt(locs);
    var opts := OptionsFor(locs);
    forall v | v in ValuesOf(opts)
      ensures v == Placeholder || (v.IdValue? && v.id in Ids(locs))
    {
      var i :| 0 <= i < |opts| && opts[i].value == v;
      if i > 0 {
        assert locs[i - 1] in locs;
      }
    }
    forall id | id in Ids(locs)
      ensures IdValue(id) in ValuesOf(opts)
    {
      var l :| l in locs && l.id == id;
      var k :| 0 <= k < |locs| && locs[k] == l;
      assert opts[k + 1] in opts;
    }
    assert opts[0] in opts;
  }

  // ---------------------------------------------------------------------
  // Lookup by id

  /** The first record with the given id, or None (the array find of the
      source, whose "undefined" is None). */
  function Find(locs: seq<Location>, id: int): (r: Option<Location>)
    ensures r.None? <==> id !in Ids(locs)
    ensures r.Some? ==> exists k :: (0 <= k < |locs| && locs[k] == r.value && r.value.id == id &&
                                     forall j :: 0 <= j < k ==> locs[j].id != id)
    decreases |locs|
  {
    if |locs| == 0 then None
    else if locs[0].id == id then Some(locs[0])
    else
      var r := Find(locs[1..], id);
      assert Ids(locs) == {locs[0].id} + Ids(locs[1..]) by {
        assert locs == [locs[0]] + locs[1..];
        assert forall l :: l in locs <==> l == locs[0] || l in locs[1..];
      }
      assert r.Some? ==> exists k :: (0 <= k < |locs| && locs[k] == r.value && r.value.id == id &&
                                      forall j :: 0 <= j < k ==> locs[j].id != id) by {
        if r.Some? {
          var k :| 0 <= k < |locs[1..]| && locs[1..][k] == r.value && r.value.id == id &&
            forall j :: 0 <= j < k ==> locs[1..][j].id != id;
          assert locs[k + 1] == r.value;
          assert forall j :: 0 <= j < k + 1 ==> locs[j].id != id by {
            forall j | 0 <= j < k + 1 ensures locs[j].id != id {
              if j > 0 { assert locs[j] == locs[1..][j - 1]; }
            }
          }
        }
      }
      r
  }

  /** What the "Show Distances" button resolves the selector's value to:
      nothing selected, the record found, or no record (a value the mirror
      does not hold). */
  datatype Resolution = NotSelected | Resolved(source: Location) | NotFound

  function ResolveSelection(locs: seq<Location>, sel: OptionValue): (r: Resolution)
    ensures r.NotSelected? <==> sel == Placeholder
    ensures r.Resolved? ==> r.source in locs && r.source.id == sel.id
    ensures r.NotFound? <==> sel.IdValue? && sel.id !in Ids(locs)
  {
    if sel == Placeholder then NotSelected
    else
      match Find(locs, sel.id)
      case None => NotFound
      case Some(l) => Resolved(l)
  }

  /** A value taken from the selector built for locs always resolves to a
      record of locs, unless it is the placeholder. */
  lemma SelectorResolves(locs: seq<Location>, sel: OptionValue)
    requires sel in ValuesOf(OptionsFor(locs))
    ensures ResolveSelection(locs, sel).NotSelected? || ResolveSelection(locs, sel).Resolved?
  {
    OptionValues(locs);
  }
}
