# RealtimeMap in Dafny

RealtimeMap is a browser page. It asks for the user's name, stores the user's position in Firebase through GeoFire, and draws a Google Map. On the map it keeps one marker and one info window for every other user inside an editable radius. The marker tables follow GeoFire's `key_entered`, `key_moved` and `key_exited` events.

This project models the sequential logic of that page:

- **`wrappers.dfy`**: `Option`.
- **`settings.dfy`**: the constants at the top of `public/js/core.js`.
- **`cookies.dfy`**: the cookie helpers of `public/js/utils.js`.
  - `readCookie` is a method with the source's two loops.
  - The string `createCookie` assigns is modelled, and so is `eraseCookie`.
  - The browser's cookie store is a `CookieJar` class that those helpers update. `document.cookie` reads the store back as `n1=v1; n2=v2`, as laid out in section 4.2.1 of RFC 6265.
- **`html_entities.dfy`**: `htmlentities`, the chain of four global replacements, proved equal to a per-character escape.
- **`sprintf.dfy`**: the string part of the bundled `sprintf`. That is `%%` and `%s`, with an `n$` argument index, the flag loop (`ParseFlags`), `_pad`, `justify` and `_formatString`. A method walks the format and shares one argument counter across all directives, as `format.replace(regex, doFormat)` does.
- **`map_markers.dfy`**: the `mapMarkers` and `mapInfoWindows` tables of `public/js/map.js`.
  - They form a `MarkerTables` class. Its methods are `addMarkerToMap`, `updateMarker`, `removeMarkerFromMap`, `doesMarkerExist`, `deleteAllMarkers`, `closeInfoWindows` and the marker's click handler.
  - Each method is specified by a function on the two tables.
  - The file also holds the info-window content and the circle radius in meters and kilometres.
- **`core.dfy`**: the page logic of `public/js/core.js`.
  - The `getOrAskForName` decision and the `init` user-record branch.
  - The geolocation error messages.
  - The query calls.
  - The handlers that move the marker tables on query events.
  - The page's global variables are the fields of a `Session` class.

Several things outside the page arrive as parameters: the text typed into `prompt`, the key Firebase gives a pushed record, the position the browser reports, each query event, and whether a Firebase write succeeded. Each callback is one step, run when it is delivered. The location write in `saveLocation` and the `then` that runs when it settles are two steps (`LocationFound` and `LocationSaved`), and other callbacks can run between them. `changeName` takes the outcome of its write as a parameter, and `init` does not wait for its writes.

A JavaScript number is a `Num`: its real value, plus the text `String()` prints for it. That text is given, not computed.

The main results:

- **`readCookie` reads back what was stored.** Over the cookie store it returns the first cookie with the wanted name. Writing one cookie leaves every other cookie reading as before.
- **`htmlentities` is a safe encoder.** Its output has no raw `<`, `>` or `"`, and every `&` starts an entity. Decoding the four entities gives the input back.
- **`sprintf` on `%s` templates.** A format made only of text and bare `%s` gives the arguments in order, with no rescanning. The documented string examples hold.
- **Marker tables follow events.** For any key other than the user's own, after any sequence of events the key has a marker exactly when the last event that reached it was `key_entered` or `key_moved`. The marker then sits where that event put it.
- **The two tables agree.** They always have the same keys.

## Model

| member | source | states |
|---|---|---|
| Cookies.Split | public/js/utils.js:81 | `split(';')` gives at least one piece and no piece holds the separator |
| Cookies.JoinSplit | public/js/utils.js:81 | the pieces of the split, joined with the separator, are the whole cookie string: nothing is lost |
| Cookies.StripLeadingSpaces | public/js/utils.js:84 | the stripped entry is empty or does not start with a space |
| Cookies.StripRemovesOnlyLeadingSpaces | public/js/utils.js:84 | only a leading run of spaces is removed; the rest of the entry is kept as it is |
| Cookies.FirstMatchNone | public/js/utils.js:82-87 | `readCookie` returns null exactly when no entry, after its leading spaces, starts with `name=` |
| Cookies.FirstMatchSome | public/js/utils.js:82-86 | a found value is the rest after `name=` of a matching entry with no matching entry before it |
| Cookies.ReadCookieKeepsEquals | public/js/utils.js:85 | the value is the whole rest of the entry, `=` included (`a=b=c` gives `b=c`) |
| Cookies.ReadCookieWholeName | public/js/utils.js:80-85 | a name that only prefixes a cookie's name does not match (`x` in `xy=1` is null) |
| Cookies.ReadCookieFirstWins | public/js/utils.js:82-85 | in `name=v;…` the first entry answers, whatever later entries of the same name hold |
| Cookies.CookieAssignment | public/js/utils.js:69-77 | the string written is `name=value; path=/` for `days == 0`, and `name=value; expires=…; path=/` otherwise |
| Cookies.EraseAssignment | public/js/utils.js:90-92 | `eraseCookie` writes `name=; expires=…; path=/` |
| Cookies.AssignmentCarriesValue | public/js/utils.js:69-88 | read back as a cookie list, the assignment string yields the value up to its first `;` under the name |
| Cookies.StoreKeepsWellFormed | public/js/utils.js:76 | writing a cookie with a valid name keeps every cookie findable by name |
| Cookies.ReadCookieFindsStoredValue | public/js/utils.js:79-88 | over the browser's `document.cookie`, `readCookie` finds the value of the first stored cookie of that name |
| Cookies.ReadCookieSkipsSpaces | public/js/utils.js:84-85 | the space after each `;` is skipped and a suffix-name does not match (`y` in `xy=1; y=2` is `2`) |
| Cookies.StoreThenRead | public/js/utils.js:69-88 | after `createCookie(name, v, days >= 0)`, `readCookie(name)` is `v` up to its first `;` |
| Cookies.EraseThenRead | public/js/utils.js:90-92 | after `eraseCookie(name)`, `readCookie(name)` is null and every other cookie reads as before |
| Cookies.StoreKeepsOtherCookies | public/js/utils.js:69-77 | writing one cookie leaves every other cookie reading as before |
| Cookies.CookieJar.ReadCookie | public/js/utils.js:79-88 | the two loops return exactly `CookieValue` of the current `document.cookie` |
| Cookies.CookieJar.CreateCookie | public/js/utils.js:69-77 | the store becomes `Store(old, name, value, days)` and stays well formed |
| Cookies.CookieJar.EraseCookie | public/js/utils.js:90-92 | the store becomes `Store(old, name, "", -1)` and `readCookie(name)` is then null |
| HtmlEntities.HtmlEntities | public/js/utils.js:95-97 | the chained replacements equal the per-character escape `EscapeEach` |
| HtmlEntities.ChainOnOneCharacter | public/js/utils.js:96 | on one character the four replacements give its entity, with no entity replaced again |
| HtmlEntities.ChainIsPerCharacter | public/js/utils.js:96 | because `&` goes first, the chain escapes every character exactly once |
| HtmlEntities.NoRawSpecials | public/js/utils.js:96 | the output holds no `<`, `>` or `"` |
| HtmlEntities.AmpersandsStartEntities | public/js/utils.js:96 | every `&` in the output starts `&amp;`, `&lt;`, `&gt;` or `&quot;` |
| HtmlEntities.UnescapeInverts | public/js/utils.js:96 | decoding the four entities gives back the original string |
| HtmlEntities.IdentityOnSafe | public/js/utils.js:96 | a string with none of `&<>"` is returned unchanged |
| HtmlEntities.EscapingTwiceDiffers | public/js/utils.js:96 | the encoder is not idempotent: `<` gives `&lt;`, and escaping that gives `&amp;lt;` |
| Sprintf.DirectiveAt | public/js/utils.js:121 | a match at a `%` spans at least two characters and ends inside the format; it is `%%` exactly when the next character is `%`; otherwise each group holds what its part of the pattern allows (digits before `$`, flags from `[-+'#0 ]`, counts `\d+`, `*` or `*\d+$`, a conversion letter) |
| Sprintf.DirectiveAtMatches | public/js/utils.js:121 | the text of the directive read, group by group, is exactly the characters the match spans |
| Sprintf.SwitchesUpTo | public/js/utils.js:179-201 | after `n` turns of the flag loop, left-justify, zero-pad and base-prefix are set iff `-`, `0`, `#` occurred |
| Sprintf.PadCharUpTo | public/js/utils.js:176-196 | the pad character is a space unless a `'` or `0` occurred, and then the last such flag chose it |
| Sprintf.SignUpTo | public/js/utils.js:173-186 | the sign prefix is empty unless a ` ` or `+` occurred, and then it is the last such flag |
| Sprintf.FlagsMeaning | public/js/utils.js:172-201 | the meaning of the whole flag string, as the three lemmas above state it for the full loop |
| Sprintf.ParseFlags | public/js/utils.js:172-201 | the `for`/`switch` loop computes `FlagsOf(flags)` |
| Sprintf.Pad | public/js/utils.js:125-131 | the length is max(\|str\|, len); `str` is a prefix when left-justifying and a suffix otherwise; the rest is the pad character, a space when `chr` is empty |
| Sprintf.Justify | public/js/utils.js:132-146 | a value shorter than `minWidth` widens to exactly `minWidth`; a longer one is unchanged; left justification keeps the value as a prefix and fills the rest with the pad character; right justification without `0` puts the pad character before the value; with `0` the zeros go after the first `\|prefix\|` characters and the rest of the value follows |
| Sprintf.Cut | public/js/utils.js:160-162 | `slice(0, precision)`: a prefix of the value, of length min(precision, \|value\|) |
| Sprintf.FormatString | public/js/utils.js:159-164 | the result's length is the cut value's or `minWidth`; it holds the cut value as a prefix (left) or suffix (right); the gap is the pad character, or zeros when right-justifying with `0` |
| Sprintf.DoFormat | public/js/utils.js:166-234 | one directive is converted exactly when it is a `%s` without `*` counts (the rest yield `None`); the counter advances only without an `n$` index; a bare `%s` gives the next argument as it is; the text is `Convert` (flags parsed, width and precision read, `_formatString`) |
| Sprintf.Sprintf | public/js/utils.js:121-124 | the left-to-right replacement with a shared argument counter returns `Format(format, args)` |
| Sprintf.LiteralRun | public/js/utils.js:272 | text without `%` is copied to the output as it is |
| Sprintf.NoDirectives | public/js/utils.js:272 | a format without `%` is its own output, whatever the arguments |
| Sprintf.PercentPercent | public/js/utils.js:168-170 | `%%` becomes `%` and uses no argument |
| Sprintf.PlainString | public/js/utils.js:231-234 | a bare `%s` becomes the next argument unchanged and advances the counter |
| Sprintf.FilledFrom | public/js/utils.js:231-272 | from any position, text pieces with `%s` between them give the pieces with the arguments put in order |
| Sprintf.TemplateFilled | public/js/utils.js:231-272 | a format of `%`-free pieces joined by `%s` is filled with the arguments in order; arguments are never rescanned |
| Sprintf.PercentExample | public/js/utils.js:168-170 | `sprintf("%%")` is `"%"` |
| Sprintf.WidthExample | public/js/utils.js:113-114 | `sprintf("[%10s]", 'monkey')` is `'[    monkey]'` |
| Sprintf.PadCharExample | public/js/utils.js:115-116 | `sprintf("[%'#10s]", 'monkey')` is `'[####monkey]'` |
| Sprintf.LeftZeroExample | public/js/utils.js:119-120 | `sprintf('%-03s', 'E')` is `'E00'` |
| MapMarkers.TemplatePieces | public/js/map.js:5 | the info-window template is five `%`-free pieces with a `%s` between each two |
| MapMarkers.InfoWindowContent | public/js/map.js:103-108 | the content is the template with title, latitude text, longitude text and the distance line put in, in that order |
| MapMarkers.DistanceShownIffNonZero | public/js/map.js:104-106 | `Distance: d km` appears, just before `</div>`, exactly when the distance is present and not zero |
| MapMarkers.InitialCircleRadius | public/js/map.js:36 | without a query the circle starts at 600 km, that is 600000 m |
| MapMarkers.RadiusToKm | public/js/map.js:44-47 | the km sent to `geoQueryUpdate` times 1000 is the circle's radius in meters |
| MapMarkers.RadiusRoundTrip | public/js/map.js:36-47 | a query radius in km, drawn in meters and read back, is the same radius |
| MapMarkers.AddMakesMarkerExist | public/js/map.js:51-73 | after `addMarkerToMap` the key has a marker at `data.loc` and a closed window; other keys are unchanged |
| MapMarkers.UpdateChangesOnlyItsKey | public/js/map.js:75-78 | `updateMarker` changes only the key's position and content; the window stays open or closed |
| MapMarkers.RemoveMakesMarkerGone | public/js/map.js:80-84 | after `removeMarkerFromMap` the key is in neither table; other keys are unchanged |
| MapMarkers.OperationsKeepSameKeys | public/js/map.js:51-101 | add, update, remove, delete-all, close-all and click keep the two tables' key sets equal |
| MapMarkers.DeleteAllKeepsOnlySelf | public/js/map.js:90-96 | `deleteAllMarkers` leaves at most the user's own marker, and keeps it when it was there |
| MapMarkers.CloseLeavesNoneOpen | public/js/map.js:97-101 | after `closeInfoWindows` no window is open; keys and contents are kept |
| MapMarkers.ClickOpensOnlyItsWindow | public/js/map.js:65-68 | after a marker click exactly that marker's window is open; contents are kept |
| MapMarkers.MarkerTables.constructor | public/js/core.js:21-22 | the page starts with both tables empty |
| MapMarkers.MarkerTables.AddMarkerToMap | public/js/map.js:51-73 | the tables become `Added(old, data)`, and the marker at `data.loc` is returned |
| MapMarkers.MarkerTables.UpdateMarker | public/js/map.js:75-78 | the tables become `Updated(old, data)` |
| MapMarkers.MarkerTables.RemoveMarkerFromMap | public/js/map.js:80-84 | the tables become `Removed(old, key)` |
| MapMarkers.MarkerTables.DoesMarkerExist | public/js/map.js:86-88 | true exactly when the key is in `mapMarkers` |
| MapMarkers.MarkerTables.DeleteAllMarkers | public/js/map.js:90-96 | the `for-in` loop leaves `AllDeleted(old, userId)` |
| MapMarkers.MarkerTables.CloseInfoWindows | public/js/map.js:97-101 | the `for-in` loop closes every window and changes nothing else |
| MapMarkers.MarkerTables.MarkerClicked | public/js/map.js:65-68 | the tables become `Clicked(old, key)` |
| Core.DecideName | public/js/core.js:81-98 | the cookie name is reused iff it is non-empty, `changeName` is false and it has at most 25 characters; otherwise an empty or null answer is declined and one over 25 characters refused; any name returned is non-empty and at most 25 characters |
| Core.AcceptedNameIsReused | public/js/core.js:83-93 | in the modelled cookie store, a typed name without `;` is stored as `_userName`; the next visit reuses it without asking; `_userId` reads as before |
| Core.NameChoiceKeepsUserId | public/js/core.js:83-93 | choosing the name never changes what `_userId` reads |
| Core.RefusedNameWritesNothing | public/js/core.js:86-92 | a declined or too long answer writes no cookie and gives `false` |
| Core.LocationErrorMessage | public/js/core.js:72-77 | codes 1, 2 and 3 give the denied, unavailable and timed-out messages; any other code gives the generic prefix and the error's message |
| Core.KnownErrorMessagesDiffer | public/js/core.js:73-75 | the three known codes give three different messages |
| Core.Handle | public/js/core.js:164-197 | one handler run keeps the two tables' key sets equal |
| Core.HandleAll | public/js/core.js:147-149 | any sequence of delivered events keeps the two tables' key sets equal |
| Core.HandleOtherKey | public/js/core.js:164-197 | an event that does not reach a key leaves that key's entries unchanged |
| Core.MarkerFollowsLastEvent | public/js/core.js:164-197 | for a key other than the user's own, a marker exists exactly when the last event that reached it was entered or moved; its position and content are that event's; with no such event the marker is unchanged |
| Core.OwnKeyIgnoredOnEnterOrMove | public/js/core.js:167-168 | an entered or moved event for the user's own key changes nothing |
| Core.OwnKeyRemovedOnExit | public/js/core.js:191-196 | an exited event for the user's own key removes the user's own marker |
| Core.Session.constructor | public/js/core.js:7-22 | the page starts with no user, no query, no circle and empty tables; cookies and the `users` and `_geofire/users` records are what the browser and Firebase hold |
| Core.Session.GetOrAskForName | public/js/core.js:81-98 | returns `NameOf(DecideName(…))`; only an accepted name is written to `_userName` (for 7 days); `userName` becomes the returned name |
| Core.Session.Init | public/js/core.js:33-62 | `ok` exactly when a name was reused or accepted; `false` leaves cookies, records, `userId` and `userName` alone; otherwise the record named by a non-empty `_userId` cookie is updated, or a record is pushed under the new key and that key stored in `_userId`; locations, query and circle never change |
| Core.Session.ChangeName | public/js/core.js:100-115 | always asks; a valid answer becomes `userName` and the `_userName` cookie, and the user's record only when the `update` write succeeded; anything else changes nothing; `userId`, location, locations, query and circle are unchanged |
| Core.Session.InitMap | public/js/map.js:7-31 | the user's own marker is added with the escaped name and ` <br><span>You</span>`, and the circle is drawn |
| Core.Session.DrawRadius | public/js/map.js:33-36 | the circle's radius is the query's radius, or 600, times 1000 |
| Core.Session.LocationSaved | public/js/core.js:131-135 | when the `geoFire.set` write succeeds, the user's location is stored and only then a query of 600 km is started around it |
| Core.Session.LocationFound | public/js/core.js:66-71 | the position is kept, the own marker added and the circle drawn with the radius of the query running before; the location write is still pending, so the locations and the query are unchanged, as are the user and the records |
| Core.Session.GeoQueryStart | public/js/core.js:141-150 | the query runs around the centre with the radius |
| Core.Session.GeoQueryUpdate | public/js/core.js:152-155 | the query's radius changes and nothing else does; without a query, which throws in the source, nothing changes |
| Core.Session.GeoQueryCancel | public/js/core.js:157-162 | without a query nothing happens; otherwise the query is cancelled; no other field changes |
| Core.Session.CircleRadiusChanged | public/js/map.js:44-48 | the circle takes the new meters and the query's radius becomes them divided by 1000; the user, the records and the location are unchanged |
| Core.Session.OnKeyEnteredOrMoved | public/js/core.js:164-189 | the tables become `Handle(old, userId, event)`: own key or missing record skipped, else update if the marker exists and add otherwise |
| Core.Session.OnKeyExited | public/js/core.js:191-197 | the tables become `Handle(old, userId, event)`: the key is removed, the user's own included, unless the record is missing |

## Left out

- Numeric `sprintf` conversions are not modelled; a format that uses one yields `None`. These are `c`, `b`, `o`, `x`, `X`, `u`, `i`, `d`, `e`, `E`, `f`, `F`, `g` and `G`. They rest on JavaScript number coercion, `>>> 0` and floating-point formatting (public/js/utils.js:147-157, 235-267).
- `*` and `*n$` widths and precisions are not modelled either; a format that uses one yields `None`. They read numbers from the arguments (public/js/utils.js:206-209, 223-226).
- Negative widths cannot come from the decimal widths the model reads, so the perl feature at public/js/utils.js:213-216 is not modelled. A decimal width above the largest JavaScript number (about 1.8e308: every width of 310 or more digits, and the 309-digit ones above that value) is `Infinity` and makes `sprintf` throw (public/js/utils.js:218-219); the model reads the digits as an unbounded integer and pads to that width instead.
- Sprintf.DirectiveAt: reads the pattern greedily and proves that what it returns is a match of the pattern; that it is the match JavaScript's backtracking finds is argued in the module comment of sprintf.dfy, not proved.
- The `>>> 0` wrap of the pad length at public/js/utils.js:129 only matters past 2^32 characters; the model pads with unbounded integers.
- Arguments are strings in the model. `value + ''` and `String(str)` coercion of other JavaScript values is not modelled, except that a missing argument prints `undefined`.
- Lengths are counted in Dafny characters, not UTF-16 code units.
- A GeoFire distance is a `Num` whose text is given. `getRoundedDistance` and `GeoFire.distance` (public/js/utils.js:13-15) are floating-point geodesic maths in a foreign library. A NaN distance, which is falsy, is not modelled.
- The expiry date of a cookie is the parameter `expires`, standing for `toGMTString()` of now plus `days`. The clock and the expiry of stored cookies over time are not modelled.
- The browser's cookie store keeps each cookie in place when it is overwritten. It cuts a value at its first `;`, deletes a cookie written with a past expiry, and lists the pairs joined by `; `. Other attribute handling and the whitespace trimming of section 5.2 of RFC 6265 are not modelled.
- Cookies.CookieJar.CreateCookie: requires a name without `=`, `;` or a leading space, because the page only writes `_userName` and `_userId`. A name with `=` makes an entry that a read of another name can match (`createCookie("a=b", v)` stores `a=b=v`, which `readCookie("a")` answers with `b=v`), so the store would no longer be readable cookie by cookie.
- MapMarkers.MarkerTables.UpdateMarker: requires the key to be in the tables. The source would throw a TypeError otherwise, and its only caller checks `doesMarkerExist` first.
- Core.AcceptedNameIsReused: stated only for a name without `;`, and over a cookie store that does not trim. The browser keeps a cookie value up to its first `;`, so a name with one is not reused verbatim. It also trims leading and trailing spaces and tabs from a value (section 5.2 of RFC 6265), so `" bob "` comes back as `bob`, and `" "` comes back empty, which makes the page ask again.
- The tables are keyed by strings. The inherited properties of the JavaScript arrays `mapMarkers` and `mapInfoWindows`, such as `length` answering `key in mapMarkers`, are not modelled.
- A Google Maps marker is its position and an info window is its content and open flag. The `DROP` animation, the `label` and the map object are not modelled. So are `OverlappingMarkerSpiderfier` registration and the removal of a marker from the map; only the tables are.
- `updateMarker` moves the marker and changes its window in place. `addMarkerToMap` on a key that already has a marker replaces the table entries, and the model does not track the old marker object left on the map.
- The circle's centre binding and the map's click listener are not modelled, though `closeInfoWindows` is.
- `log`, `show`, `hide`, the loading indicator, `prompt`'s message text and `alert` are user interface and are not modelled. The typed answer is a parameter.
- Core.Session.ChangeName: does not model `window.location.reload` after a successful write (public/js/core.js:109-110). The reload throws away every page global the `Session` keeps and loads the page again from the cookies and the Firebase records; the model keeps the `Session` as it is.
- Core.Session.LocationSaved: a failed `geoFire.set` reaches the `catch` at public/js/core.js:136-138, which only logs, so it is no step: the location is not stored and no query is started.
- Firebase and GeoFire are calls into code outside the model: `ref`, `push`, `update`, `once`, `geoFire.set`, `query` and `updateCriteria`. The records under `users` and `_geofire/users` are maps on the `Session`, and the key of a pushed record is a parameter.
- The `getLocation` promise (public/js/core.js:117-129) is outside the model. A found position is the `LocationFound` step, and an error is its code and message given to `LocationErrorMessage`.
- Callbacks interleave in the source; the model runs each to completion as one step. The order in which the record reads of the handlers complete is not modelled (public/js/core.js:165, 192).
- A query event is delivered to the handler as a step whether or not the query was cancelled or restarted. `geoQueryStart` does not cancel a previous query (public/js/core.js:141-150), and the model does not track the old query's events.
- A record that exists without a `name` field makes the handlers use the text `undefined`. The model's `GeoEvent.name` is that text, and `None` stands only for a missing record.
- public/map.js is an earlier copy of public/js/map.js and is not part of this model.
- `MAP_ZOOM` and the map's centre are display settings only.
