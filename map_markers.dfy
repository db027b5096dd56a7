/**
 * The keyed marker tables of public/js/map.js.
 *
 * `mapMarkers` and `mapInfoWindows` map a user key to that user's map marker
 * and info window. Google Maps objects become plain records: a marker is
 * its position, an info window its content and whether it is open.
 */
module MapMarkers {
  import opened Wrappers
  import Settings
  import Sprintf

  /** A JavaScript number with the text `String(n)` prints for it. */
  datatype Num = Num(value: real, shown: string)

  datatype LatLng = LatLng(lat: Num, lng: Num)

  /** The `data` object passed to `addMarkerToMap` and `updateMarker`. */
  datatype MarkerData = MarkerData(key: string, loc: LatLng, title: string, distance: Option<Num>)

  datatype Marker = Marker(position: LatLng)

  datatype InfoWindow = InfoWindow(content: string, open: bool)

  /** Both tables at one moment. */
  datatype Tables = Tables(markers: map<string, Marker>, infoWindows: map<string, InfoWindow>)

  // ---------------------------------------------------------------------------
  // Info-window content
  // ---------------------------------------------------------------------------

  /** `<div class="map-info-window"> <h3>%s</h3> Latitude: %s <br> Longitude: %s <br> %s</div>`, cut at its `%s`. */
  const MARKER_INFO_WINDOW_CONTENT := "<div class=\"map-info-window\"> <h3>" + "%s" + "</h3> Latitude: " + "%s"
    + " <br> Longitude: " + "%s" + " <br> " + "%s" + "</div>"

  /** The text around the template's four `%s`. */
  const INFO_PIECES: seq<string> := ["<div class=\"map-info-window\"> <h3>", "</h3> Latitude: ", " <br> Longitude: ", " <br> ", "</div>"]

  lemma InfoPiecesPercentFree()
    ensures |INFO_PIECES| == 5 && Sprintf.PercentFree(INFO_PIECES)
  {
  }

  /** The template is its five pieces with a `%s` between each two, and nothing else. */
  lemma TemplatePieces()
    ensures |INFO_PIECES| == 5 && Sprintf.PercentFree(INFO_PIECES)
    ensures MARKER_INFO_WINDOW_CONTENT == Sprintf.Template(INFO_PIECES)
  {
    InfoPiecesPercentFree();
    Sprintf.TemplateFive(INFO_PIECES);
  }

  /** `extra`: the distance line, only for a distance that is present and not zero. */
  function DistanceLine(distance: Option<Num>): string
  {
    if distance.Some? && distance.value.value != 0.0 then "Distance: " + distance.value.shown + " km" else ""
  }

  /** `getInfoWindowContentString(data)`: the template filled with title, latitude, longitude and distance line. */
  function InfoWindowContent(data: MarkerData): (r: string)
    ensures r == "<div class=\"map-info-window\"> <h3>" + data.title
      + ("</h3> Latitude: " + data.loc.lat.shown
      + (" <br> Longitude: " + data.loc.lng.shown
      + (" <br> " + DistanceLine(data.distance) + "</div>")))
  {
    var args := [data.title, data.loc.lat.shown, data.loc.lng.shown, DistanceLine(data.distance)];
    TemplatePieces();
    Sprintf.TemplateFilled(INFO_PIECES, args);
    Sprintf.FilledFive(INFO_PIECES[0], INFO_PIECES[1], INFO_PIECES[2], INFO_PIECES[3], INFO_PIECES[4], args);
    Sprintf.Format(MARKER_INFO_WINDOW_CONTENT, args).value
  }

  /** The distance line appears exactly for a present, non-zero distance. */
  lemma DistanceShownIffNonZero(data: MarkerData)
    ensures (DistanceLine(data.distance) != "") <==> (data.distance.Some? && data.distance.value.value != 0.0)
    ensures data.distance.Some? && data.distance.value.value != 0.0 ==>
      "Distance: " + data.distance.value.shown + " km" <= InfoWindowContent(data)[|InfoWindowContent(data)| - |DistanceLine(data.distance)| - 6..]
  {
    var r := InfoWindowContent(data);
    var line := DistanceLine(data.distance);
    if line != "" {
      assert |"Distance: "| == 10;
      var before := "<div class=\"map-info-window\"> <h3>" + data.title + "</h3> Latitude: " + data.loc.lat.shown
        + " <br> Longitude: " + data.loc.lng.shown + " <br> ";
      assert r == before + line + "</div>";
      assert r[|r| - |line| - 6..] == line + "</div>";
    }
  }

  // ---------------------------------------------------------------------------
  // The circle radius
  // ---------------------------------------------------------------------------

  /** `drawRadius`: the circle starts at the query radius, or `DEFAULT_RADIUS`, in meters. */
  function InitialCircleRadius(queryRadiusKm: Option<real>): (meters: real)
    ensures queryRadiusKm.None? ==> meters == 600000.0
  {
    (if queryRadiusKm.Some? then queryRadiusKm.value else Settings.DEFAULT_RADIUS) * Settings.METERS_IN_KM
  }

  /** The `radius_changed` handler: the circle's meters as the km sent to `geoQueryUpdate`. */
  function RadiusToKm(meters: real): (km: real)
    ensures km * Settings.METERS_IN_KM == meters
  {
    meters / Settings.METERS_IN_KM
  }

  /** Drawing a circle for a query radius and reading it back gives that radius. */
  lemma RadiusRoundTrip(km: real)
    ensures RadiusToKm(InitialCircleRadius(Some(km))) == km
  {
    assert InitialCircleRadius(Some(km)) == km * 1000.0;
  }

  // ---------------------------------------------------------------------------
  // What each table operation does, as functions of the tables
  // ---------------------------------------------------------------------------

  /** The two tables have the same keys. */
  predicate SameKeys(t: Tables)
  {
    t.markers.Keys == t.infoWindows.Keys
  }

  /** `doesMarkerExist(key)`. */
  predicate HasMarker(t: Tables, key: string)
  {
    key in t.markers
  }

  /** `addMarkerToMap(data)`: a marker at `data.loc` and a closed window with the filled template, under `data.key`. */
  function Added(t: Tables, data: MarkerData): Tables
  {
    Tables(t.markers[data.key := Marker(data.loc)], t.infoWindows[data.key := InfoWindow(InfoWindowContent(data), false)])
  }

  /** `updateMarker(data)`: a new position and new content; the window stays open or closed. */
  function Updated(t: Tables, data: MarkerData): Tables
    requires data.key in t.infoWindows
  {
    Tables(t.markers[data.key := Marker(data.loc)],
           t.infoWindows[data.key := t.infoWindows[data.key].(content := InfoWindowContent(data))])
  }

  /** `removeMarkerFromMap(key)`. */
  function Removed(t: Tables, key: string): Tables
  {
    Tables(t.markers - {key}, t.infoWindows - {key})
  }

  /** `deleteAllMarkers()`: only the entry of `userId` is kept. */
  function AllDeleted(t: Tables, userId: Option<string>): Tables
  {
    Tables(map k | k in t.markers && Some(k) == userId :: t.markers[k],
           map k | k in t.infoWindows && Some(k) == userId :: t.infoWindows[k])
  }

  /** `closeInfoWindows()`. */
  function AllClosed(windows: map<string, InfoWindow>): map<string, InfoWindow>
  {
    map k | k in windows :: windows[k].(open := false)
  }

  /** The `spider_click` handler of the marker under `key`: close every window, then open this one. */
  function Clicked(t: Tables, key: string): Tables
    requires key in t.infoWindows
  {
    var closed := AllClosed(t.infoWindows);
    Tables(t.markers, closed[key := closed[key].(open := true)])
  }

  // ---------------------------------------------------------------------------
  // Properties of the table operations
  // ---------------------------------------------------------------------------

  /** After adding, the key is in both tables with the new marker and a closed window; no other key changes. */
  lemma AddMakesMarkerExist(t: Tables, data: MarkerData)
    ensures HasMarker(Added(t, data), data.key) && data.key in Added(t, data).infoWindows
    ensures Added(t, data).markers[data.key].position == data.loc
    ensures !Added(t, data).infoWindows[data.key].open
    ensures forall k :: k != data.key ==> (HasMarker(Added(t, data), k) <==> HasMarker(t, k))
    ensures forall k :: k != data.key && k in t.markers ==> Added(t, data).markers[k] == t.markers[k]
    ensures forall k :: k != data.key && k in t.infoWindows ==> Added(t, data).infoWindows[k] == t.infoWindows[k]
  {
  }

  /** Updating changes the position and content under the key and nothing else. */
  lemma UpdateChangesOnlyItsKey(t: Tables, data: MarkerData)
    requires data.key in t.infoWindows
    ensures Updated(t, data).markers.Keys == t.markers.Keys + {data.key}
    ensures Updated(t, data).infoWindows.Keys == t.infoWindows.Keys
    ensures Updated(t, data).markers[data.key].position == data.loc
    ensures Updated(t, data).infoWindows[data.key] == InfoWindow(InfoWindowContent(data), t.infoWindows[data.key].open)
    ensures forall k :: k != data.key && k in t.markers ==> Updated(t, data).markers[k] == t.markers[k]
    ensures forall k :: k != data.key && k in t.infoWindows ==> Updated(t, data).infoWindows[k] == t.infoWindows[k]
  {
  }

  /** After removing, the key is in neither table; every other key keeps its entries. */
  lemma RemoveMakesMarkerGone(t: Tables, key: string)
    ensures !HasMarker(Removed(t, key), key) && key !in Removed(t, key).infoWindows
    ensures forall k :: k != key ==> (HasMarker(Removed(t, key), k) <==> HasMarker(t, k))
    ensures forall k :: k != key && k in t.markers ==> Removed(t, key).markers[k] == t.markers[k]
    ensures forall k :: k != key && k in t.infoWindows ==> Removed(t, key).infoWindows[k] == t.infoWindows[k]
  {
  }

  /** Add, update, remove, delete-all and clicks keep the two tables' key sets equal. */
  lemma OperationsKeepSameKeys(t: Tables, data: MarkerData, key: string, userId: Option<string>)
    requires SameKeys(t)
    ensures SameKeys(Added(t, data))
    ensures data.key in t.infoWindows ==> SameKeys(Updated(t, data))
    ensures SameKeys(Removed(t, key))
    ensures SameKeys(AllDeleted(t, userId))
    ensures SameKeys(Tables(t.markers, AllClosed(t.infoWindows)))
    ensures key in t.infoWindows ==> SameKeys(Clicked(t, key))
  {
  }

  /** Delete-all leaves at most the user's own entry, and keeps it when it was there. */
  lemma DeleteAllKeepsOnlySelf(t: Tables, userId: Option<string>)
    ensures forall k :: HasMarker(AllDeleted(t, userId), k) <==> HasMarker(t, k) && Some(k) == userId
    ensures userId.Some? && userId.value in t.markers ==> AllDeleted(t, userId).markers[userId.value] == t.markers[userId.value]
  {
  }

  /** After `closeInfoWindows` no window is open; every window keeps its key and content. */
  lemma CloseLeavesNoneOpen(windows: map<string, InfoWindow>)
    ensures AllClosed(windows).Keys == windows.Keys
    ensures forall k :: k in AllClosed(windows) ==> !AllClosed(windows)[k].open
    ensures forall k :: k in windows ==> AllClosed(windows)[k].content == windows[k].content
  {
  }

  /** After a marker click exactly that marker's window is open. */
  lemma ClickOpensOnlyItsWindow(t: Tables, key: string)
    requires key in t.infoWindows
    ensures Clicked(t, key).infoWindows[key].open
    ensures forall k :: k in Clicked(t, key).infoWindows && Clicked(t, key).infoWindows[k].open ==> k == key
    ensures forall k :: k in t.infoWindows ==> Clicked(t, key).infoWindows[k].content == t.infoWindows[k].content
  {
  }

  // ---------------------------------------------------------------------------
  // The tables, updated in place
  // ---------------------------------------------------------------------------

  class MarkerTables {
    var markers: map<string, Marker>
    var infoWindows: map<string, InfoWindow>

    /** Both tables as one value. */
    function State(): Tables
      reads this
    {
      Tables(markers, infoWindows)
    }

    ghost predicate Valid()
      reads this
    {
      SameKeys(State())
    }

    /** `var mapMarkers = []; var mapInfoWindows = [];` */
    constructor ()
      ensures Valid() && markers == map[] && infoWindows == map[]
    {
      markers := map[];
      infoWindows := map[];
    }

    method AddMarkerToMap(data: MarkerData) returns (marker: Marker)
      requires Valid()
      modifies this
      ensures Valid()
      ensures State() == Added(old(State()), data)
      ensures marker == Marker(data.loc)
    {
      marker := Marker(data.loc);
      var infoWindow := InfoWindow(InfoWindowContent(data), false);
      markers := markers[data.key := marker];
      infoWindows := infoWindows[data.key := infoWindow];
    }

    method UpdateMarker(data: MarkerData)
      requires Valid() && data.key in markers
      modifies this
      ensures Valid()
      ensures State() == Updated(old(State()), data)
    {
      markers := markers[data.key := Marker(data.loc)];
      infoWindows := infoWindows[data.key := infoWindows[data.key].(content := InfoWindowContent(data))];
    }

    method RemoveMarkerFromMap(key: string)
      requires Valid()
      modifies this
      ensures Valid()
      ensures State() == Removed(old(State()), key)
    {
      markers := markers - {key};
      infoWindows := infoWindows - {key};
    }

    method DoesMarkerExist(key: string) returns (b: bool)
      ensures b <==> HasMarker(State(), key)
    {
      b := key in markers;
    }

    /** The `for (var key in mapMarkers)` loop, skipping `userId`. */
    method DeleteAllMarkers(userId: Option<string>)
      requires Valid()
      modifies this
      ensures Valid()
      ensures State() == AllDeleted(old(State()), userId)
    {
      var keys := markers.Keys;
      ghost var start := State();
      while keys != {}
        invariant Valid()
        invariant keys <= start.markers.Keys
        invariant markers == map k | k in start.markers && (k in keys || Some(k) == userId) :: start.markers[k]
        invariant infoWindows == map k | k in start.infoWindows && (k in keys || Some(k) == userId) :: start.infoWindows[k]
        decreases keys
      {
        var key :| key in keys;
        if Some(key) != userId {
          RemoveMarkerFromMap(key);
        }
        keys := keys - {key};
      }
    }

    /** The `for (var key in mapInfoWindows)` loop closing each window. */
    method CloseInfoWindows()
      requires Valid()
      modifies this
      ensures Valid()
      ensures markers == old(markers) && infoWindows == AllClosed(old(infoWindows))
    {
      var keys := infoWindows.Keys;
      ghost var start := infoWindows;
      while keys != {}
        invariant Valid() && markers == old(markers)
        invariant keys <= start.Keys && infoWindows.Keys == start.Keys
        invariant forall k :: k in start ==> infoWindows[k] == if k in keys then start[k] else start[k].(open := false)
        decreases keys
      {
        var key :| key in keys;
        infoWindows := infoWindows[key := infoWindows[key].(open := false)];
        keys := keys - {key};
      }
    }

    /** The marker's `spider_click` handler. */
    method MarkerClicked(key: string)
      requires Valid() && key in infoWindows
      modifies this
      ensures Valid()
      ensures State() == Clicked(old(State()), key)
    {
      CloseInfoWindows();
      infoWindows := infoWindows[key := infoWindows[key].(open := true)];
    }
  }
}
