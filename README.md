# Location distance map: client state model

The repository is a one-page web application. A user registers named
geographic points. The page shows them as markers on a map. On demand it
lists the distance from one chosen point to every other stored point and
makes that point's marker bounce for a few seconds.

This project models the page script's client-side state as one class,
`Client.ClientState`. Its state is:

- the mirror `locations` of the stored records;
- the live marker handles `markers` and the id-to-marker table `markerMap`;
- the location selector's option list `options`;
- the record each marker's click listener holds (`listeners`);
- which markers are attached to the map (`attached`);
- which markers carry the bounce flag (`animating`);
- the scheduled flag-clearing callbacks that have not yet fired (`pending`).

Marker handles are natural numbers taken from a counter (`nextHandle`). The
map library, the dialogs and the network are not modelled.

Modules:

- `Locations` (`locations.dfy`) gives the records and the structures a reload
  rebuilds as pure functions:
  - `MarkerIndex`, the id-to-handle table. A later record with the same id
    overwrites an earlier one.
  - `OptionsFor`, the placeholder option followed by one option per record.
  - `Find`, the first record with an id.
  - `ResolveSelection`, the "Show Distances" guard.
- `Distances` (`distances.dfy`) gives the distance listing. `DistanceListing`
  is the filter-then-map chain in one pass. `Others` is the filter alone, used
  as its independent reference. The distance is a function parameter
  `(Coord, Coord) -> real`.
- `Client` (`client.dfy`) holds the class. Each method states its whole new
  state in terms of those functions. The object invariant `Valid()` says two
  things. The tables agree with the mirror (`Tables()`). Of the markers on
  the map, at most one bounces, and that one is indexed (`Flags()`).

The save reply and the reload snapshot are inputs. A timeout firing is the
explicit event `Expire(h)`.

## Model

| member | source | states |
|---|---|---|
| `Client.ClientState.constructor` | index.php:54-65 | Initial globals: an empty mirror, no markers, an empty index, and a selector with only the placeholder. |
| `Client.ClientState.ClearMarkers` | index.php:186-190 | Every handle in the old `markers` is detached from the map, and nothing else is. `markers` and `markerMap` become empty. |
| `Client.ClientState.LoadLocations` | index.php:109-137 | `locations == data`. `markers` holds one fresh handle per record, in `data` order. No earlier handle stays attached. The keys of `markerMap` are exactly the ids of `data`. The selector is `OptionsFor(data)`. Each marker's listener holds its record. Animation flags and timers are untouched. The invariant is kept. |
| `Client.ClientState.CreateMarkers` | index.php:116-135 | The selector is reset, then the forEach runs over `data`. Afterwards markers, index, options and listeners are the ones built from `data` and consecutive fresh handles. |
| `Client.ClientState.AddMarker` | index.php:119-134 | One iteration: a new handle is created, attached, pushed, indexed under the record's id, given an option and given a listener that holds the record. |
| `Client.ClientState.HighlightMarker` | index.php:158-169 | Every indexed flag is cleared, then the flag of `markerMap[id]` is set when `id` is a key. One callback is scheduled only in that case. Afterwards the only bouncing marker on the map, and the only bouncing indexed marker, is `markerMap[id]`, or there is none. |
| `Client.ClientState.SilenceIndexed` | index.php:160 | The loop over the index's values returns the current flags with exactly the indexed markers' flags cleared. It changes nothing itself; `HighlightMarker` stores the result. |
| `Client.ClientState.Expire` | index.php:165-167 | A scheduled callback firing clears the flag of its own handle only, sets no flag, removes one pending callback, and keeps the invariant. Afterwards at most one marker on the map bounces, stated as a cardinality. |
| `Client.ClientState.ShowDistances` | index.php:139-156 | The listing returned is `DistanceListing(locations, from, dist)`. Then the source's marker is highlighted, as in `HighlightMarker(from.id)`. |
| `Client.ClientState.ClickMarker` | index.php:132-134 | A click on an attached marker shows the listing for the record that marker was created for, and highlights that record's id. The flags and the pending callbacks become those of highlighting that id. |
| `Client.ClientState.CalculateSelectedDistances` | index.php:171-184 | The placeholder gives a warning and leaves every field unchanged. An id taken from the selector always resolves to a record of the mirror. The result is that record's listing, and it is highlighted. |
| `Client.ClientState.SaveReply` | index.php:87-105 | The notice is `Saved` exactly when the status is `"success"`. Then the form is reset and the state is reloaded from the snapshot, with the whole new state `LoadLocations` gives: fresh handles in order, the index, selector and listeners built from the snapshot, old handles detached, flags and callbacks kept, and no marker on the map bouncing. Any other status leaves the whole object unchanged. |
| `Client.HighlightedFlags` | index.php:160-164 | Flags outside the index are kept as they were. Among the indexed markers, exactly the one under `id` bounces, and none when `id` is not a key. |
| `Client.FreshSpan` | index.php:118-124 | The handles created by a reload differ from every earlier handle, flagged or not. |
| `Client.FlagsAfterReload` | index.php:113-135 | A reload whose markers are all unflagged leaves the flags consistent. |
| `Client.ReloadTables` | index.php:116-135 | Records `data` and the handles counted from `base` give tables that agree with each other. |
| `Client.HighlightLeavesOne` | index.php:160-164 | Suppose every bouncing marker on the map is indexed and every indexed marker is on the map. Then after highlighting, the bouncing markers on the map are exactly `{index[id]}`, or none. The flag invariant holds again. |
| `Client.ExpireKeepsAtMostOne` | index.php:165-167 | Clearing one handle's flag only shrinks the set of bouncing markers on the map, and it keeps the flag invariant. |
| `Client.AtMostOneCard` | index.php:159-164 | The pairwise "at most one" used in the invariant is the same as a cardinality of at most 1. |
| `Client.StaleTimerClearsRehighlight` | index.php:158-167 | On a valid state, highlight an indexed id twice through `HighlightMarker`, then fire one callback through `Expire`. The marker is left without its flag while its other callback is still pending, because callbacks are never cancelled. |
| `Locations.MarkerIndex` | index.php:118-125 | The index built by the forEach. The id of the final record is always a key and maps to the final handle pushed. |
| `Locations.MarkerIndexKeys` | index.php:118-125 | The keys of the index built from a record list are exactly the ids in that list. |
| `Locations.MarkerIndexValues` | index.php:124-125 | Every handle in the index is one of the pushed handles. |
| `Locations.MarkerIndexLastWins` | index.php:125 | The last record with a given id determines that id's entry. |
| `Locations.MarkerIndexEntries` | index.php:125 | Every entry of the index is the handle of the last record that carries its id. |
| `Locations.MarkerIndexOfUnique` | index.php:118-125 | With unique ids, record k's id maps to handle k, and the index has exactly one entry per record. |
| `Locations.RecordOptions` | index.php:127-130 | One option per record. None of them is the placeholder. |
| `Locations.OptionsFor` | index.php:116-130 | The selector has one entry more than the mirror has records. The placeholder comes first, and no later option is the placeholder. |
| `Locations.RecordOptionsAt` | index.php:127-130 | Option k has value `locs[k].id` and text `locs[k].name`. There is one option per record. |
| `Locations.OptionsForAt` | index.php:116-130 | The selector is the placeholder followed by one option per record, in record order. |
| `Locations.OptionValues` | index.php:116-130 | The values a user can pick are exactly the placeholder and the ids of the mirror. |
| `Locations.Find` | index.php:182 | Returns `None` exactly when no record has the id. Otherwise it returns the first record in order that has the id. |
| `Locations.ResolveSelection` | index.php:172-183 | `NotSelected` exactly for the empty value. `NotFound` exactly for an id absent from the mirror. Otherwise it returns a record of the mirror with that id. |
| `Locations.SelectorResolves` | index.php:182 | A value taken from the selector built for the mirror never resolves to `NotFound`. |
| `Distances.Others` | index.php:142 | The filter never lengthens the mirror. No record it keeps has the source's id. |
| `Distances.DistanceListing` | index.php:141-147 | The listing has at most one entry per record. When the source is itself in the mirror, the listing is strictly shorter than the mirror. |
| `Distances.ListingFollowsOthers` | index.php:141-147 | Listing entry k is the name and distance of the k-th record, in mirror order, whose id differs from the source's. The listing has as many entries as such records. |
| `Distances.OthersMembers` | index.php:142 | A record is listed exactly when it is in the mirror and its id differs from the source's. A record with the source's id never is. |
| `Distances.OthersAppend` | index.php:141-142 | The filter keeps mirror order: filtering a concatenation concatenates the filtered parts. |
| `Distances.OthersCount` | index.php:142 | The filter drops one record per occurrence of the source's id. |
| `Distances.ListingLength` | index.php:141-147 | With unique ids and the source in the mirror, the listing has one entry fewer than the mirror. It is empty when the source is the only record. |

## Left out

- Map construction. The `initMap` options (centre and zoom) and the initial `loadLocations` call at index.php:67-73 are not modelled. The constructor is the state before that first load.
- Marker construction and `LatLng` are left out. Markers are opaque handles; their position and title are not modelled (index.php:119-123, 140, 144).
- The distance value is left out. `computeDistanceBetween` is a library float computation, so it is a parameter. No haversine, symmetry or zero-distance fact is claimed.
- Listing presentation is left out. This covers the `/ 1000` and `toFixed(2)` formatting and the `join('<br>')`. A listing is a sequence of `Entry(name, meters)` (index.php:146-147).
- Transport and presentation are left out: `fetch`, JSON, SweetAlert2 dialogs, DOM access and the `window.onload` script injection (index.php:81-86, 110-112, 149-155, 192-198).
- Reading the form fields and building the POST body are left out (index.php:77-85). The form appears only as the value that `reset()` empties.
- The endpoints `save_location.php` and `get_locations.php` are not part of this model. Id assignment and validation happen there. The snapshot and the reply status are inputs.
- Client.ClientState.ShowDistances: highlights right after computing the listing. The source highlights in the dialog's `didOpen` callback (index.php:154), and the dialog itself is presentation.
- Real timing is left out: the 3000 ms delay, and loads or saves that overlap on the event loop. Each callback firing is an explicit `Expire` event, and each method runs to completion.
- Location: `lat` and `lng` are `real` values. The `parseFloat` of possibly textual values is not modelled.
- Ids are integers. JavaScript's loose `==`/`!=` and the string keys of `markerMap` then agree with integer equality.
- Client.ClientState.CalculateSelectedDistances: requires the value to be one of the selector's option values, as the DOM guarantees. The array `find` can return `undefined`, in which case the source passes it on and `showDistances` throws. That case exists only as `NotFound` in `ResolveSelection`, and `SelectorResolves` shows the selector never produces it.

## Notes on the source

In these places the code behaves in ways a reader might not expect. The model follows the code.

- Pending flag-clearing callbacks are never cancelled. A reload does not reset the flags either. A marker detached by a reload can therefore keep its flag until its callback fires. For this reason the invariant "at most one marker bounces" is stated over the markers attached to the map, and over the indexed ones. `StaleTimerClearsRehighlight` calls the class's own methods, and its contract shows that an older callback cuts short a newer highlight of the same marker.
- The listing excludes every record whose id equals the source's id, not only the source record itself.
- A selector id that the mirror lacks is not reported as an error. The source would fail at `showDistances`. In this model the selector and the mirror are rebuilt together, so it cannot happen.
