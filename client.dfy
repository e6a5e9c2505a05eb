/**
  The client page's state: the mirror of the stored locations, the live
  marker handles, the id-to-marker table, the selector's options, the click
  listeners of the markers, and the markers' animation flags with their
  scheduled clearing callbacks. The map library is reduced to which handles
  are attached to the map and which carry the bounce flag.
 */
module Client {
  import opened Locations
  import opened Distances

  /** The three fields of the add-location form. */
  datatype FormInput = FormInput(name: string, lat: string, lng: string)

  const EmptyForm := FormInput("", "", "")

  /** What the "Show Distances" button puts on screen. */
  datatype Presentation = SelectWarning | DistancesShown(source: Location, listing: seq<Entry>)

  /** The notification that answers a save reply. */
  datatype SaveNotice = Saved | SaveFailed

  /** The animation flags after highlighting id: every indexed marker is
      silenced, then the one indexed under id, if any, bounces. */
  function HighlightedFlags(animating: set<Handle>, index: map<int, Handle>, id: int): (r: set<Handle>)
    ensures r - index.Values == animating - index.Values
    ensures r * index.Values == (if id in index then {index[id]} else {})
  {
    (animating - index.Values) + (if id in index then {index[id]} else {})
  }

  /** Only created handles carry a flag, and of the markers on the map at
      most one, an indexed one, bounces. */
  ghost predicate FlagsOk(animating: set<Handle>, attached: set<Handle>, index: map<int, Handle>, next: nat)
  {
    && (forall h :: h in animating ==> h < next)
    && animating * attached <= index.Values
    && AtMostOne(animating * attached)
  }

  ghost predicate AtMostOne(s: set<Handle>)
  {
    forall a, b :: a in s && b in s ==> a == b
  }

  /** When every indexed marker is on the map, highlighting keeps the flags
      consistent and leaves exactly the marker of id bouncing on the map, or
      none when id is not indexed. */
  lemma HighlightLeavesOne(animating: set<Handle>, attached: set<Handle>, index: map<int, Handle>, next: nat, id: int)
    requires FlagsOk(animating, attached, index, next)
    requires index.Values <= attached && forall h :: h in attached ==> h < next
    ensures HighlightedFlags(animating, index, id) * attached == (if id in index then {index[id]} else {})
    ensures FlagsOk(HighlightedFlags(animating, index, id), attached, index, next)
  {
    if id in index {
      assert index[id] in index.Values;
    }
  }

  /** A clearing callback only removes a flag, so it keeps the flags
      consistent, in particular "at most one marker on the map bounces". */
  lemma ExpireKeepsAtMostOne(animating: set<Handle>, attached: set<Handle>, index: map<int, Handle>, next: nat, h: Handle)
    requires FlagsOk(animating, attached, index, next)
    ensures (animating - {h}) * attached <= animating * attached
    ensures FlagsOk(animating - {h}, attached, index, next)
  {
  }

  /** The markers are the last |markers| handles below next, one per record;
      the map shows exactly them; index, selector and listeners are the ones
      built from the records and the markers. */
  ghost predicate TablesOk(locs: seq<Location>, markers: seq<Handle>, index: map<int, Handle>, options: seq<SelectOption>,
                           listeners: map<Handle, Location>, attached: set<Handle>, next: nat)
  {
    && |markers| == |locs| <= next
    && (forall k :: 0 <= k < |markers| ==> markers[k] == next - |markers| + k)
    && attached == Elems(markers)
    && index == MarkerIndex(locs, markers)
    && options == OptionsFor(locs)
    && Registered(listeners, markers, locs)
  }

  /** The tables a reload builds from data and the handles from base on. */
  lemma ReloadTables(data: seq<Location>, base: nat, listeners: map<Handle, Location>)
    requires Registered(listeners, Span(base, |data|), data)
    ensures TablesOk(data, Span(base, |data|), MarkerIndex(data, Span(base, |data|)), OptionsFor(data), listeners,
                     Elems(Span(base, |data|)), base + |data|)
  {
    SpanAt(base, |data|);
  }

  /** A reload whose markers are all unflagged keeps the flags consistent:
      no bouncing marker is on the map. */
  lemma FlagsAfterReload(animating: set<Handle>, attached: set<Handle>, index: map<int, Handle>, next: nat, next': nat)
    requires forall h :: h in animating ==> h < next
    requires next <= next' && animating * attached == {}
    ensures FlagsOk(animating, attached, index, next')
  {
  }

  /** AtMostOne is "the set has at most one element". */
  lemma AtMostOneCard(s: set<Handle>)
    ensures AtMostOne(s) <==> |s| <= 1
  {
    if AtMostOne(s) && s != {} {
      var a :| a in s;
      assert s == {a};
    }
    if |s| <= 1 && s != {} {
      var a :| a in s;
      assert |s - {a}| == 0;
      assert s == {a};
    }
  }

  /** Handles taken from the counter at base or later are unlike every
      handle created before base, in particular every flagged one. */
  lemma FreshSpan(base: nat, n: nat, earlier: set<Handle>, animating: set<Handle>)
    requires forall h :: h in earlier ==> h < base
    requires forall h :: h in animating ==> h < base
    ensures Elems(Span(base, n)) !! earlier
    ensures animating * Elems(Span(base, n)) == {}
  {
    SpanAt(base, n);
    forall h | h in Elems(Span(base, n)) ensures h >= base {
      var k :| 0 <= k < n && Span(base, n)[k] == h;
    }
  }

  class ClientState {
    /** The mirror of the stored locations. */
    var locations: seq<Location>
    /** The markers created by the last reload, in record order. */
    var markers: seq<Handle>
    /** id to marker, built alongside markers. */
    var markerMap: map<int, Handle>
    /** The option list of the location selector. */
    var options: seq<SelectOption>
    /** The record each marker's click listener was registered with. */
    var listeners: map<Handle, Location>
    /** The markers currently attached to the map. */
    var attached: set<Handle>
    /** The markers whose bounce flag is set. */
    var animating: set<Handle>
    /** One entry per scheduled, not yet fired, flag-clearing callback. */
    var pending: multiset<Handle>
    /** The handle the next created marker gets. */
    var nextHandle: nat
    var form: FormInput

    /** The object invariant: the tables rebuilt on reload agree with the
        mirror, and the flags keep at most one marker on the map bouncing. */
    ghost predicate Valid()
      reads this
    {
      Tables() && Flags()
    }

    /** The markers are the last |markers| handles created, one per record of
        the mirror; the map shows exactly them; index, selector and listeners
        are the ones built from the mirror and the markers. */
    ghost predicate Tables()
      reads this`locations, this`markers, this`markerMap, this`options, this`listeners, this`attached, this`nextHandle
    {
      TablesOk(locations, markers, markerMap, options, listeners, attached, nextHandle)
    }

    ghost predicate Flags()
      reads this`animating, this`attached, this`markerMap, this`nextHandle
    {
      FlagsOk(animating, attached, markerMap, nextHandle)
    }

    /** Every indexed marker is on the map and every marker on the map has
        been created. */
    lemma TablesFacts()
      requires Tables()
      ensures markerMap.Values <= attached
      ensures forall h :: h in attached ==> h < nextHandle
    {
      MarkerIndexValues(locations, markers);
    }

    /** The page's initial globals: nothing loaded, only the placeholder
        option in the selector. */
    constructor ()
      ensures Valid()
      ensures locations == [] && markers == [] && markerMap == map[]
      ensures options == [PlaceholderOption]
      ensures attached == {} && animating == {} && pending == multiset{}
      ensures form == EmptyForm
    {
      locations := [];
      markers := [];
      markerMap := map[];
      options := [PlaceholderOption];
      listeners := map[];
      attached := {};
      animating := {};
      pending := multiset{};
      nextHandle := 0;
      form := EmptyForm;
    }

    /** Detaches every marker from the map and empties both marker tables. */
    method ClearMarkers()
      modifies this`markers, this`markerMap, this`attached
      ensures attached == old(attached) - Elems(old(markers))
      ensures markers == [] && markerMap == map[]
    {
      var i := 0;
      while i < |markers|
        invariant 0 <= i <= |markers|
        invariant markers == old(markers)
        invariant attached == old(attached) - Elems(markers[..i])
      {
        assert markers[..i + 1] == markers[..i] + [markers[i]];
        ElemsSnoc(markers[..i], markers[i]);
        attached := attached - {markers[i]};
        i := i + 1;
      }
      assert markers[..i] == markers;
      markers := [];
      markerMap := map[];
    }

    /** Replaces the mirror by data and rebuilds markers, index, selector and
        listeners from it, one fresh marker per record in data order. */
    method LoadLocations(data: seq<Location>)
      requires Valid()
      modifies this
      ensures Valid()
      ensures locations == data
      ensures |markers| == |data|
      ensures forall k :: 0 <= k < |data| ==> markers[k] == old(nextHandle) + k
      ensures nextHandle == old(nextHandle) + |data|
      ensures markerMap == MarkerIndex(data, markers)
      ensures markerMap.Keys == Ids(data)
      ensures options == OptionsFor(data)
      ensures attached == Elems(markers) && attached !! Elems(old(markers))
      ensures Registered(listeners, markers, data)
      ensures animating == old(animating) && pending == old(pending) && form == old(form)
      ensures animating * attached == {}
    {
      TablesFacts();
      ghost var base := nextHandle;
      FreshSpan(base, |data|, Elems(markers), animating);
      FlagsAfterReload(animating, Elems(Span(base, |data|)), MarkerIndex(data, Span(base, |data|)), base, base + |data|);
      locations := data;
      ClearMarkers();
      CreateMarkers(data);
      SpanAt(base, |data|);
      MarkerIndexKeys(data, markers);
      ReloadTables(data, base, listeners);
    }

    /** Resets the selector to its placeholder, then runs AddMarker for
        each record in order. */
    method CreateMarkers(data: seq<Location>)
      requires markers == [] && markerMap == map[] && attached == {}
      modifies this`markers, this`markerMap, this`attached, this`options, this`listeners, this`nextHandle
      ensures nextHandle == old(nextHandle) + |data|
      ensures markers == Span(old(nextHandle), |data|)
      ensures attached == Elems(markers)
      ensures markerMap == MarkerIndex(data, markers)
      ensures options == OptionsFor(data)
      ensures Registered(listeners, markers, data)
    {
      options := [PlaceholderOption];
      ghost var base := nextHandle;
      var i := 0;
      while i < |data|
        invariant 0 <= i <= |data|
        invariant nextHandle == base + i
        invariant markers == Span(base, i) && |markers| == i
        invariant attached == Elems(markers)
        invariant markerMap == MarkerIndex(data[..i], markers)
        invariant options == OptionsFor(data[..i])
        invariant Registered(listeners, markers, data[..i])
      {
        SpanAt(base, i);
        assert Span(base, i + 1) == markers + [nextHandle];
        assert data[..i + 1] == data[..i] + [data[i]];
        ElemsSnoc(markers, nextHandle);
        MarkerIndexSnoc(data[..i], markers, data[i], nextHandle);
        OptionsForSnoc(data[..i], data[i]);
        RegisteredSnoc(listeners, markers, data[..i], nextHandle, data[i]);
        AddMarker(data[i]);
        i := i + 1;
      }
      assert data[..i] == data;
    }

    /** The per-record step of a reload: a fresh marker attached to the map,
        indexed under the record's id, the record's option appended to the
        selector, and the record registered with the marker's click
        listener. */
    method AddMarker(loc: Location)
      modifies this`markers, this`markerMap, this`attached, this`options, this`listeners, this`nextHandle
      ensures nextHandle == old(nextHandle) + 1
      ensures markers == old(markers) + [old(nextHandle)]
      ensures attached == old(attached) + {old(nextHandle)}
      ensures markerMap == old(markerMap)[loc.id := old(nextHandle)]
      ensures options == old(options) + [SelectOption(IdValue(loc.id), loc.name)]
      ensures listeners == old(listeners)[old(nextHandle) := loc]
    {
      var marker := nextHandle;
      nextHandle := nextHandle + 1;
      attached := attached + {marker};
      markers := markers + [marker];
      markerMap := markerMap[loc.id := marker];
      options := options + [SelectOption(IdValue(loc.id), loc.name)];
      listeners := listeners[marker := loc];
    }

    /** Silences every indexed marker, then sets the bounce flag of the
        marker indexed under id, if any, and schedules its clearing. */
    method HighlightMarker(id: int)
      requires Valid()
      modifies this`animating, this`pending
      ensures Valid()
      ensures animating == HighlightedFlags(old(animating), markerMap, id)
      ensures pending == old(pending) + (if id in markerMap then multiset{markerMap[id]} else multiset{})
      ensures animating * attached == (if id in markerMap then {markerMap[id]} else {})
      ensures animating * markerMap.Values == (if id in markerMap then {markerMap[id]} else {})
    {
      TablesFacts();
      HighlightLeavesOne(animating, attached, markerMap, nextHandle, id);
      var flags := SilenceIndexed();
      if id in markerMap {
        var marker := markerMap[id];
        flags := flags + {marker};
        pending := pending + multiset{marker};
      }
      animating := flags;
    }

    /** The flags once every marker in the index has been silenced, one
        marker at a time. */
    method SilenceIndexed() returns (flags: set<Handle>)
      ensures flags == animating - markerMap.Values
    {
      flags := animating;
      var rest := markerMap.Values;
      while rest != {}
        invariant rest <= markerMap.Values
        invariant flags == animating - (markerMap.Values - rest)
        decreases rest
      {
        var m :| m in rest;
        flags := flags - {m};
        rest := rest - {m};
      }
    }

    /** A scheduled clearing callback fires: it clears the flag of the one
        marker it was scheduled for and sets none. */
    method Expire(h: Handle)
      requires Valid() && h in pending
      modifies this`animating, this`pending
      ensures Valid()
      ensures animating == old(animating) - {h}
      ensures pending == old(pending) - multiset{h}
      ensures animating * attached <= old(animating) * attached
      ensures |animating * attached| <= 1
    {
      animating := animating - {h};
      pending := pending - multiset{h};
      ExpireKeepsAtMostOne(old(animating), attached, markerMap, nextHandle, h);
      AtMostOneCard(animating * attached);
    }

    /** Lists the distances from the source to the other records of the
        mirror, then highlights the source's marker. */
    method ShowDistances(from: Location, dist: (Coord, Coord) -> real) returns (listing: seq<Entry>)
      requires Valid()
      modifies this`animating, this`pending
      ensures Valid()
      ensures listing == DistanceListing(locations, from, dist)
      ensures animating == HighlightedFlags(old(animating), markerMap, from.id)
      ensures pending == old(pending) + (if from.id in markerMap then multiset{markerMap[from.id]} else multiset{})
      ensures animating * attached == (if from.id in markerMap then {markerMap[from.id]} else {})
    {
      listing := DistanceListing(locations, from, dist);
      HighlightMarker(from.id);
    }

    /** A click on a marker on the map shows the distances from the record
        the marker was created for. */
    method ClickMarker(h: Handle, dist: (Coord, Coord) -> real) returns (shown: Presentation)
      requires Valid() && h in attached
      modifies this`animating, this`pending
      ensures Valid()
      ensures exists k :: (0 <= k < |markers| && markers[k] == h &&
                           shown == DistancesShown(locations[k], DistanceListing(locations, locations[k], dist)) &&
                           animating == HighlightedFlags(old(animating), markerMap, locations[k].id) &&
                           pending == old(pending) +
                             (if locations[k].id in markerMap then multiset{markerMap[locations[k].id]} else multiset{}))
    {
      var k :| 0 <= k < |markers| && markers[k] == h;
      var source := listeners[h];
      var listing := ShowDistances(source, dist);
      shown := DistancesShown(source, listing);
    }

    /** The "Show Distances" button: the placeholder gives a warning and
        changes nothing; an id gives the listing of its first record. */
    method CalculateSelectedDistances(selected: OptionValue, dist: (Coord, Coord) -> real) returns (shown: Presentation)
      requires Valid() && selected in ValuesOf(options)
      modifies this`animating, this`pending
      ensures Valid()
      ensures selected == Placeholder ==>
        shown == SelectWarning && animating == old(animating) && pending == old(pending)
      ensures selected != Placeholder ==>
        && ResolveSelection(locations, selected).Resolved?
        && var source := ResolveSelection(locations, selected).source;
        && shown == DistancesShown(source, DistanceListing(locations, source, dist))
        && animating == HighlightedFlags(old(animating), markerMap, selected.id)
        && pending == old(pending) + (if selected.id in markerMap then multiset{markerMap[selected.id]} else multiset{})
    {
      var r := ResolveSelection(locations, selected);
      SelectorResolves(locations, selected);
      if r.NotSelected? {
        shown := SelectWarning;
      } else {
        var listing := ShowDistances(r.source, dist);
        shown := DistancesShown(r.source, listing);
      }
    }

    /** The reply to a save request: "success" resets the form and reloads
        from the snapshot the list endpoint then returns; any other status
        only reports the failure. */
    method SaveReply(status: string, snapshot: seq<Location>) returns (notice: SaveNotice)
      requires Valid()
      modifies this
      ensures Valid()
      ensures notice == Saved <==> status == "success"
      ensures status == "success" ==>
        && form == EmptyForm
        && locations == snapshot
        && |markers| == |snapshot|
        && (forall k :: 0 <= k < |snapshot| ==> markers[k] == old(nextHandle) + k)
        && nextHandle == old(nextHandle) + |snapshot|
        && markerMap == MarkerIndex(snapshot, markers)
        && markerMap.Keys == Ids(snapshot)
        && options == OptionsFor(snapshot)
        && attached == Elems(markers) && attached !! Elems(old(markers))
        && Registered(listeners, markers, snapshot)
        && animating == old(animating) && pending == old(pending)
        && animating * attached == {}
      ensures status != "success" ==> unchanged(this)
    {
      if status == "success" {
        notice := Saved;
        form := EmptyForm;
        LoadLocations(snapshot);
      } else {
        notice := SaveFailed;
      }
    }
  }

  /** Highlighting the same marker twice and then firing one of its two
      callbacks leaves that marker without its flag while the other callback
      is still pending: the source never cancels a callback, so the older
      one cuts the newer highlight short. */
  method StaleTimerClearsRehighlight(c: ClientState, id: int)
    requires c.Valid() && id in c.markerMap
    modifies c
    ensures c.Valid()
    ensures c.markerMap == old(c.markerMap)
    ensures c.markerMap[id] !in c.animating && c.markerMap[id] in c.pending
  {
    c.HighlightMarker(id);
    c.HighlightMarker(id);
    c.Expire(c.markerMap[id]);
  }
}
