/**
 * The page logic of public/js/core.js: choosing the user's name, the user
 * record chosen by `init`, the geo query, and the handlers that keep the
 * marker tables in step with the users inside the query radius.
 *
 * The module-level variables of the page become the fields of `Session`.
 * Firebase, GeoFire and the browser are outside the model: the text typed
 * into `prompt`, the key Firebase invents for a new record, the position the
 * browser reports and each query event arrive as parameters, and every
 * callback runs as one step when it is delivered.
 */
module Core {
  import opened Wrappers
  import Settings
  import Cookies
  import HtmlEntities
  import opened MapMarkers

  const USER_NAME_COOKIE := "_userName"
  const USER_ID_COOKIE := "_userId"

  // ---------------------------------------------------------------------------
  // Choosing the name
  // ---------------------------------------------------------------------------

  /** How `getOrAskForName` ends. */
  datatype NameOutcome =
    | Reused(name: string)    // the `_userName` cookie is used as it is
    | Accepted(name: string)  // the typed name is taken and remembered
    | Declined                // nothing was typed: `false`
    | TooLong                 // the typed name is over `NAME_MAX_CHAR`: `false`

  /** `!name || changeName || name.length > NAME_MAX_CHAR`: is the user asked? */
  predicate MustAsk(stored: Option<string>, changeName: bool)
  {
    stored.None? || stored.value == "" || changeName || |stored.value| > Settings.NAME_MAX_CHAR
  }

  /** The decision `getOrAskForName` takes from the stored cookie, the flag and the typed answer. */
  function DecideName(stored: Option<string>, changeName: bool, answer: Option<string>): (r: NameOutcome)
    ensures r.Reused? <==> stored.Some? && stored.value != "" && !changeName && |stored.value| <= Settings.NAME_MAX_CHAR
    ensures r.Reused? ==> r.name == stored.value
    ensures r.Declined? <==> MustAsk(stored, changeName) && (answer.None? || answer.value == "")
    ensures r.TooLong? <==> MustAsk(stored, changeName) && answer.Some? && |answer.value| > Settings.NAME_MAX_CHAR
    ensures r.Accepted? ==> answer == Some(r.name)
    ensures (r.Reused? || r.Accepted?) ==> r.name != "" && |r.name| <= Settings.NAME_MAX_CHAR
  {
    if !MustAsk(stored, changeName) then Reused(stored.value)
    else if answer.None? || answer.value == "" then Declined
    else if |answer.value| > Settings.NAME_MAX_CHAR then TooLong
    else Accepted(answer.value)
  }

  /** The value `getOrAskForName` returns: the name, or `None` for `false`. */
  function NameOf(o: NameOutcome): Option<string>
  {
    if o.Reused? || o.Accepted? then Some(o.name) else None
  }

  /** The cookies after `getOrAskForName`: only an accepted name is written. */
  function AfterNameChoice(jar: seq<Cookies.Cookie>, changeName: bool, answer: Option<string>): seq<Cookies.Cookie>
  {
    var o := DecideName(Cookies.CookieValue(Cookies.Header(jar), USER_NAME_COOKIE), changeName, answer);
    if o.Accepted? then Cookies.Store(jar, USER_NAME_COOKIE, o.name, Settings.COOKIE_DAYS) else jar
  }

  lemma CookieNamesValid()
    ensures Cookies.ValidName(USER_NAME_COOKIE) && Cookies.ValidName(USER_ID_COOKIE)
    ensures USER_NAME_COOKIE != USER_ID_COOKIE
  {
    assert USER_NAME_COOKIE[5] != USER_ID_COOKIE[5];
  }

  /**
   * A name typed once (without `;`) is remembered: the next visit reads it
   * back from the cookie and uses it without asking, and `_userId` reads as before.
   */
  lemma AcceptedNameIsReused(jar: seq<Cookies.Cookie>, answer: Option<string>, laterAnswer: Option<string>)
    requires Cookies.WellFormedJar(jar)
    requires DecideName(Cookies.CookieValue(Cookies.Header(jar), USER_NAME_COOKIE), false, answer).Accepted?
    requires ';' !in answer.value
    ensures Cookies.CookieValue(Cookies.Header(AfterNameChoice(jar, false, answer)), USER_NAME_COOKIE) == answer
    ensures DecideName(Cookies.CookieValue(Cookies.Header(AfterNameChoice(jar, false, answer)), USER_NAME_COOKIE), false, laterAnswer)
      == Reused(answer.value)
    ensures Cookies.CookieValue(Cookies.Header(AfterNameChoice(jar, false, answer)), USER_ID_COOKIE)
      == Cookies.CookieValue(Cookies.Header(jar), USER_ID_COOKIE)
  {
    CookieNamesValid();
    Cookies.StoreThenRead(jar, USER_NAME_COOKIE, answer.value, Settings.COOKIE_DAYS);
    Cookies.StoreKeepsOtherCookies(jar, USER_NAME_COOKIE, answer.value, Settings.COOKIE_DAYS, USER_ID_COOKIE);
  }

  /** Choosing the name never changes what `_userId` reads. */
  lemma NameChoiceKeepsUserId(jar: seq<Cookies.Cookie>, changeName: bool, answer: Option<string>)
    requires Cookies.WellFormedJar(jar)
    ensures Cookies.CookieValue(Cookies.Header(AfterNameChoice(jar, changeName, answer)), USER_ID_COOKIE)
      == Cookies.CookieValue(Cookies.Header(jar), USER_ID_COOKIE)
  {
    var o := DecideName(Cookies.CookieValue(Cookies.Header(jar), USER_NAME_COOKIE), changeName, answer);
    if o.Accepted? {
      CookieNamesValid();
      Cookies.StoreKeepsOtherCookies(jar, USER_NAME_COOKIE, o.name, Settings.COOKIE_DAYS, USER_ID_COOKIE);
    }
  }

  /** Asking for a new name writes no cookie unless a valid name was typed. */
  lemma RefusedNameWritesNothing(jar: seq<Cookies.Cookie>, changeName: bool, answer: Option<string>)
    requires MustAsk(Cookies.CookieValue(Cookies.Header(jar), USER_NAME_COOKIE), changeName)
    requires answer.None? || answer.value == "" || |answer.value| > Settings.NAME_MAX_CHAR
    ensures AfterNameChoice(jar, changeName, answer) == jar
    ensures NameOf(DecideName(Cookies.CookieValue(Cookies.Header(jar), USER_NAME_COOKIE), changeName, answer)).None?
  {
  }

  // ---------------------------------------------------------------------------
  // Geolocation errors
  // ---------------------------------------------------------------------------

  const DENIED_MESSAGE := "You'll need to allow Geolocation access in order to use this site."
  const UNAVAILABLE_MESSAGE := "Geolocation is unavailable right now. Try again later."
  const TIMEOUT_MESSAGE := "Geolocation timed out. Try again later."
  const GENERIC_PREFIX := "Geolocation Error Message: "

  /** The message the `catch` of `init` logs for a geolocation error. */
  function LocationErrorMessage(code: int, message: string): (m: string)
    ensures code == 1 ==> m == DENIED_MESSAGE
    ensures code == 2 ==> m == UNAVAILABLE_MESSAGE
    ensures code == 3 ==> m == TIMEOUT_MESSAGE
    ensures code !in {1, 2, 3} ==> m == GENERIC_PREFIX + message
  {
    match code
    case 1 => DENIED_MESSAGE
    case 2 => UNAVAILABLE_MESSAGE
    case 3 => TIMEOUT_MESSAGE
    case _ => GENERIC_PREFIX + message
  }

  /** The three known codes give three different messages. */
  lemma KnownErrorMessagesDiffer(code: int, code': int, message: string, message': string)
    requires code in {1, 2, 3} && code' in {1, 2, 3} && code != code'
    ensures LocationErrorMessage(code, message) != LocationErrorMessage(code', message')
  {
    assert |DENIED_MESSAGE| == 66 && |UNAVAILABLE_MESSAGE| == 54 && |TIMEOUT_MESSAGE| == 39;
  }

  // ---------------------------------------------------------------------------
  // Query events
  // ---------------------------------------------------------------------------

  /** `key_entered` and `key_moved` share one handler; `key_exited` has its own. */
  datatype EventKind = Entered | Moved | Exited

  /**
   * One query event as its handler sees it: the user's key and location, the
   * `name` of their record (`None` when `snapshot.val()` is null because the
   * record is missing) and the distance from this user.
   */
  datatype GeoEvent = GeoEvent(kind: EventKind, key: string, loc: LatLng, name: Option<string>, distance: Num)

  /** The `data` the entered/moved handler builds. */
  function EventData(e: GeoEvent): MarkerData
    requires e.name.Some?
  {
    MarkerData(e.key, e.loc, HtmlEntities.HtmlEntities(e.name.value), Some(e.distance))
  }

  /**
   * One handler run. Entered/moved skips the user's own key, then updates an
   * existing marker or adds one; exited removes the key. A missing record
   * makes `val.name` throw before the tables are touched.
   */
  function Handle(t: Tables, self: Option<string>, e: GeoEvent): (r: Tables)
    requires SameKeys(t)
    ensures SameKeys(r)
  {
    OperationsKeepSameKeys(t, if e.name.Some? then EventData(e) else MarkerData(e.key, e.loc, "", None), e.key, self);
    if e.kind == Exited then
      if e.name.None? then t else Removed(t, e.key)
    else if Some(e.key) == self || e.name.None? then t
    else if HasMarker(t, e.key) then Updated(t, EventData(e))
    else Added(t, EventData(e))
  }

  /** The handlers run on each event of `events`, in order. */
  function HandleAll(t: Tables, self: Option<string>, events: seq<GeoEvent>): (r: Tables)
    requires SameKeys(t)
    ensures SameKeys(r)
    decreases |events|
  {
    if events == [] then t else Handle(HandleAll(t, self, events[..|events| - 1]), self, events[|events| - 1])
  }

  /** Does `e` reach the tables for `key`? */
  predicate Effective(e: GeoEvent, key: string)
  {
    e.key == key && e.name.Some?
  }

  /** The last event of `events` that reaches the tables for `key`. */
  function LastEffective(events: seq<GeoEvent>, key: string): (r: Option<GeoEvent>)
    ensures r.Some? ==> Effective(r.value, key) && r.value in events
    decreases |events|
  {
    if events == [] then None
    else if Effective(events[|events| - 1], key) then Some(events[|events| - 1])
    else LastEffective(events[..|events| - 1], key)
  }

  /** An event for another key leaves this key's entries alone. */
  lemma HandleOtherKey(t: Tables, self: Option<string>, e: GeoEvent, key: string)
    requires SameKeys(t) && !Effective(e, key)
    ensures HasMarker(Handle(t, self, e), key) <==> HasMarker(t, key)
    ensures HasMarker(t, key) ==> Handle(t, self, e).markers[key] == t.markers[key]
    ensures key in t.infoWindows ==> Handle(t, self, e).infoWindows[key] == t.infoWindows[key]
  {
  }

  /**
   * For any key but the user's own, after any sequence of events a marker
   * exists exactly when the last event that reached it was entered or moved,
   * and then it stands where that event put it, with that event's content.
   */
  lemma {:induction false} MarkerFollowsLastEvent(t: Tables, self: Option<string>, events: seq<GeoEvent>, key: string)
    requires SameKeys(t) && Some(key) != self
    ensures var last := LastEffective(events, key);
      HasMarker(HandleAll(t, self, events), key) <==> if last.None? then HasMarker(t, key) else last.value.kind != Exited
    ensures var last := LastEffective(events, key);
      last.Some? && last.value.kind != Exited ==>
        HandleAll(t, self, events).markers[key].position == last.value.loc
        && HandleAll(t, self, events).infoWindows[key].content == InfoWindowContent(EventData(last.value))
    ensures LastEffective(events, key).None? && HasMarker(t, key) ==>
      HandleAll(t, self, events).markers[key] == t.markers[key]
    decreases |events|
  {
    if events != [] {
      var before := events[..|events| - 1];
      var e := events[|events| - 1];
      var t' := HandleAll(t, self, before);
      MarkerFollowsLastEvent(t, self, before, key);
      if !Effective(e, key) {
        HandleOtherKey(t', self, e, key);
      }
    }
  }

  /** Entered and moved events for the user's own key change nothing. */
  lemma OwnKeyIgnoredOnEnterOrMove(t: Tables, self: string, e: GeoEvent)
    requires SameKeys(t) && e.key == self && e.kind != Exited
    ensures Handle(t, Some(self), e) == t
  {
  }

  /** An exited event for the user's own key does remove the user's own marker. */
  lemma OwnKeyRemovedOnExit(t: Tables, self: string, e: GeoEvent)
    requires SameKeys(t) && e.key == self && e.kind == Exited && e.name.Some?
    ensures !HasMarker(Handle(t, Some(self), e), self)
  {
  }

  // ---------------------------------------------------------------------------
  // The page
  // ---------------------------------------------------------------------------

  /** The running query: its centre, its radius in km, and whether it was cancelled. */
  datatype GeoQuery = GeoQuery(center: LatLng, radiusKm: real, cancelled: bool)

  /** The marker title of the user's own marker in `initMap`. */
  function SelfTitle(name: string): string
  {
    HtmlEntities.HtmlEntities(name) + " <br><span>You</span>"
  }

  class Session {
    var userId: Option<string>
    var userName: Option<string>
    var userLocation: Option<LatLng>
    /** The `users` records in Firebase: key to name. */
    var users: map<string, string>
    /** The locations under `_geofire/users`. */
    var geoLocations: map<string, LatLng>
    var geoQuery: Option<GeoQuery>
    /** The radius in meters of the circle `drawRadius` put on the map. */
    var circleRadius: Option<real>
    const jar: Cookies.CookieJar
    const tables: MarkerTables

    ghost predicate Valid()
      reads this, jar, tables
    {
      jar.Valid() && tables.Valid()
    }

    /**
     * The page as it loads, with the browser's cookies and what Firebase
     * holds under `users` and `_geofire/users`.
     */
    constructor (cookies: seq<Cookies.Cookie>, records: map<string, string>, locations: map<string, LatLng>)
      requires Cookies.WellFormedJar(cookies)
      ensures Valid() && fresh(jar) && fresh(tables)
      ensures jar.cookies == cookies && users == records && geoLocations == locations
      ensures tables.State() == Tables(map[], map[])
      ensures userId.None? && userName.None? && userLocation.None? && geoQuery.None? && circleRadius.None?
    {
      userId, userName, userLocation := None, None, None;
      users, geoLocations := records, locations;
      geoQuery, circleRadius := None, None;
      jar := new Cookies.CookieJar(cookies);
      tables := new MarkerTables();
    }

    /** The `_userName` cookie. */
    function StoredName(): Option<string>
      reads jar
    {
      Cookies.CookieValue(Cookies.Header(jar.cookies), USER_NAME_COOKIE)
    }

    /** `getOrAskForName(changeName)`, with `answer` what `prompt` returned (`None` for null). */
    method GetOrAskForName(changeName: bool, answer: Option<string>) returns (name: Option<string>)
      requires Valid()
      modifies this, jar
      ensures Valid()
      ensures name == NameOf(DecideName(old(StoredName()), changeName, answer))
      ensures jar.cookies == AfterNameChoice(old(jar.cookies), changeName, answer)
      ensures userName == if name.Some? then name else old(userName)
      ensures userId == old(userId) && userLocation == old(userLocation) && users == old(users)
      ensures geoLocations == old(geoLocations) && geoQuery == old(geoQuery) && circleRadius == old(circleRadius)
    {
      CookieNamesValid();
      name := jar.ReadCookie(USER_NAME_COOKIE);
      if name.None? || name.value == "" || changeName || |name.value| > Settings.NAME_MAX_CHAR {
        name := answer;
        if name.None? || name.value == "" {
          return None;
        } else if |name.value| > Settings.NAME_MAX_CHAR {
          return None;
        }
        jar.CreateCookie(USER_NAME_COOKIE, name.value, Settings.COOKIE_DAYS);
      }
      userName := name;
    }

    /**
     * The synchronous part of `init`: choose the name, then update the record
     * named by the `_userId` cookie, or push a new record under `pushKey` and
     * remember its key in `_userId`.
     */
    method Init(answer: Option<string>, pushKey: string) returns (ok: bool)
      requires Valid()
      modifies this, jar
      ensures Valid()
      ensures ok <==> NameOf(DecideName(old(StoredName()), false, answer)).Some?
      ensures !ok ==> jar.cookies == old(jar.cookies) && users == old(users) && userId == old(userId) && userName == old(userName)
      ensures ok ==> var named := AfterNameChoice(old(jar.cookies), false, answer);
        var stored := Cookies.CookieValue(Cookies.Header(old(jar.cookies)), USER_ID_COOKIE);
        var id := if stored.Some? && stored.value != "" then stored.value else pushKey;
        && userName == NameOf(DecideName(old(StoredName()), false, answer))
        && userId == Some(id)
        && users == old(users)[id := userName.value]
        && jar.cookies == if !(stored.Some? && stored.value != "")
                          then Cookies.Store(named, USER_ID_COOKIE, pushKey, Settings.COOKIE_DAYS) else named
      ensures geoQuery == old(geoQuery) && circleRadius == old(circleRadius) && userLocation == old(userLocation)
      ensures geoLocations == old(geoLocations)
    {
      CookieNamesValid();
      var oldCookies := jar.cookies;
      var name := GetOrAskForName(false, answer);
      if name.None? {
        return false;
      }
      NameChoiceKeepsUserId(oldCookies, false, answer);
      var stored := jar.ReadCookie(USER_ID_COOKIE);
      if stored.Some? && stored.value != "" {
        users := users[stored.value := name.value];
        userId := stored;
      } else {
        users := users[pushKey := name.value];
        jar.CreateCookie(USER_ID_COOKIE, pushKey, Settings.COOKIE_DAYS);
        userId := Some(pushKey);
      }
      return true;
    }

    /**
     * `changeName()`: ask again and, on a valid answer, write the name to the
     * user's record. `written` is whether `userRef.update` succeeded; on
     * failure its `catch` only logs. The reload after success is not modelled.
     */
    method ChangeName(answer: Option<string>, written: bool) returns (name: Option<string>)
      requires Valid() && userId.Some?
      modifies this, jar
      ensures Valid()
      ensures name == NameOf(DecideName(old(StoredName()), true, answer))
      ensures jar.cookies == AfterNameChoice(old(jar.cookies), true, answer)
      ensures userId == old(userId)
      ensures users == if name.Some? && written then old(users)[old(userId).value := name.value] else old(users)
      ensures userName == if name.Some? then name else old(userName)
      ensures userLocation == old(userLocation) && geoLocations == old(geoLocations)
      ensures geoQuery == old(geoQuery) && circleRadius == old(circleRadius)
    {
      name := GetOrAskForName(true, answer);
      if name.Some? && written {
        users := users[userId.value := name.value];
      }
    }

    /** `initMap(coords)`: the user's own marker, and the circle `drawRadius` puts around it. */
    method InitMap(coords: LatLng)
      requires Valid() && userId.Some? && userName.Some?
      modifies this, tables
      ensures Valid()
      ensures userId == old(userId) && userName == old(userName) && geoQuery == old(geoQuery) && users == old(users)
      ensures userLocation == old(userLocation) && geoLocations == old(geoLocations)
      ensures tables.State() == Added(old(tables.State()), MarkerData(userId.value, coords, SelfTitle(userName.value), None))
      ensures circleRadius == Some(InitialCircleRadius(if geoQuery.Some? then Some(geoQuery.value.radiusKm) else None))
    {
      var marker := tables.AddMarkerToMap(MarkerData(userId.value, coords, SelfTitle(userName.value), None));
      DrawRadius();
    }

    /** `drawRadius`: the circle's starting radius. */
    method DrawRadius()
      modifies this
      ensures circleRadius == Some(InitialCircleRadius(if geoQuery.Some? then Some(geoQuery.value.radiusKm) else None))
      ensures userId == old(userId) && userName == old(userName) && geoQuery == old(geoQuery) && users == old(users)
      ensures userLocation == old(userLocation) && geoLocations == old(geoLocations)
    {
      var radius := Settings.DEFAULT_RADIUS;
      if geoQuery.Some? {
        radius := geoQuery.value.radiusKm;
      }
      circleRadius := Some(radius * Settings.METERS_IN_KM);
    }

    /**
     * The `then` of `geoFire.set` in `saveLocation(userId, coords)`: the
     * location is stored, and only now is the query started around it. A
     * failed write reaches the `catch`, which only logs, so it is no step.
     */
    method LocationSaved(coords: LatLng)
      requires userId.Some?
      modifies this
      ensures userId == old(userId) && users == old(users) && circleRadius == old(circleRadius)
      ensures userName == old(userName) && userLocation == old(userLocation)
      ensures geoLocations == old(geoLocations)[userId.value := coords]
      ensures geoQuery == Some(GeoQuery(coords, Settings.DEFAULT_RADIUS, false))
    {
      geoLocations := geoLocations[userId.value := coords];
      GeoQueryStart(coords, Settings.DEFAULT_RADIUS);
    }

    /**
     * The `then` of `getLocation()` in `init`. It ends by calling
     * `saveLocation`, whose write settles later as `LocationSaved`, so the
     * locations and the query are still as they were.
     */
    method LocationFound(coords: LatLng)
      requires Valid() && userId.Some? && userName.Some?
      modifies this, tables
      ensures Valid()
      ensures userId == old(userId) && userName == old(userName) && users == old(users)
      ensures userLocation == Some(coords)
      ensures tables.State() == Added(old(tables.State()), MarkerData(userId.value, coords, SelfTitle(userName.value), None))
      ensures geoLocations == old(geoLocations) && geoQuery == old(geoQuery)
      ensures circleRadius == Some(InitialCircleRadius(if geoQuery.Some? then Some(geoQuery.value.radiusKm) else None))
    {
      userLocation := Some(coords);
      InitMap(coords);
    }

    method GeoQueryStart(center: LatLng, radius: real)
      modifies this
      ensures geoQuery == Some(GeoQuery(center, radius, false))
      ensures userId == old(userId) && users == old(users) && circleRadius == old(circleRadius)
      ensures geoLocations == old(geoLocations) && userLocation == old(userLocation) && userName == old(userName)
    {
      geoQuery := Some(GeoQuery(center, radius, false));
    }

    /** `geoQueryUpdate({radius})`: `ok` is false where the source throws because no query exists. */
    method GeoQueryUpdate(radiusKm: real) returns (ok: bool)
      modifies this
      ensures ok <==> old(geoQuery).Some?
      ensures geoQuery == if ok then Some(old(geoQuery).value.(radiusKm := radiusKm)) else old(geoQuery)
      ensures circleRadius == old(circleRadius) && userId == old(userId)
      ensures userName == old(userName) && userLocation == old(userLocation) && users == old(users) && geoLocations == old(geoLocations)
    {
      if geoQuery.None? {
        return false;
      }
      geoQuery := Some(geoQuery.value.(radiusKm := radiusKm));
      return true;
    }

    /** `geoQueryCancel()`: nothing happens when no query was started. */
    method GeoQueryCancel()
      modifies this
      ensures old(geoQuery).None? ==> geoQuery.None?
      ensures old(geoQuery).Some? ==> geoQuery == Some(old(geoQuery).value.(cancelled := true))
      ensures circleRadius == old(circleRadius) && userId == old(userId)
      ensures userName == old(userName) && userLocation == old(userLocation) && users == old(users) && geoLocations == old(geoLocations)
    {
      if geoQuery.None? {
        return;
      }
      geoQuery := Some(geoQuery.value.(cancelled := true));
    }

    /** The circle's `radius_changed` handler: the new radius, in km, becomes the query's. */
    method CircleRadiusChanged(meters: real) returns (ok: bool)
      modifies this
      ensures circleRadius == Some(meters)
      ensures ok <==> old(geoQuery).Some?
      ensures geoQuery == if ok then Some(old(geoQuery).value.(radiusKm := RadiusToKm(meters))) else old(geoQuery)
      ensures ok ==> geoQuery.value.radiusKm * Settings.METERS_IN_KM == meters
      ensures userId == old(userId)
      ensures userName == old(userName) && userLocation == old(userLocation) && users == old(users) && geoLocations == old(geoLocations)
    {
      circleRadius := Some(meters);
      ok := GeoQueryUpdate(RadiusToKm(meters));
    }

    /** `geoOnKeyEnteredOrMoved`, run when the user's record has been read. */
    method OnKeyEnteredOrMoved(kind: EventKind, key: string, loc: LatLng, name: Option<string>, distance: Num)
      requires Valid() && kind != Exited
      modifies tables
      ensures Valid()
      ensures tables.State() == Handle(old(tables.State()), userId, GeoEvent(kind, key, loc, name, distance))
    {
      if Some(key) == userId {
        return;
      }
      if name.None? {
        return;
      }
      var data := MarkerData(key, loc, HtmlEntities.HtmlEntities(name.value), Some(distance));
      var found := tables.DoesMarkerExist(key);
      if found {
        tables.UpdateMarker(data);
      } else {
        var marker := tables.AddMarkerToMap(data);
      }
    }

    /** `geoOnKeyExited`, run when the user's record has been read. */
    method OnKeyExited(key: string, loc: LatLng, name: Option<string>, distance: Num)
      requires Valid()
      modifies tables
      ensures Valid()
      ensures tables.State() == Handle(old(tables.State()), userId, GeoEvent(Exited, key, loc, name, distance))
    {
      if name.None? {
        return;
      }
      tables.RemoveMarkerFromMap(key);
    }
  }
}
